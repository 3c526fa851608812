/** The loop of lzo1x_optimize over its two buffers. */
module LzoLoop {
  import opened Bits
  import opened Lzo1x
  import opened LzoRewrite
  import opened LzoOptimize
  import Inflate

  datatype Status = Ok | InputNotConsumed | InputOverrun | EofNotFound

  /** The two bytes that a match of length 2 stands for (copy2). */
  method Copy2(inb: array<byte>, at: nat, outb: array<byte>, op: nat, off: nat)
    requires at + 2 <= inb.Length && inb != outb && 1 <= off <= op <= outb.Length
    modifies inb
    ensures inb[..at] == old(inb[..at]) && inb[at + 2..] == old(inb[at + 2..])
    ensures inb[at..at + 2] == Copied(outb[..op], off, 2)
  {
    var m := op - off;
    inb[at] := outb[m];
    inb[at + 1] := if off == 1 then outb[m] else outb[m + 1];
    CopiedTwo(outb[..op], off);
    assert inb[at..at + 2] == [inb[at], inb[at + 1]];
  }

  lemma CopiedTwo(out: seq<byte>, dist: nat)
    requires 1 <= dist <= |out|
    ensures Copied(out, dist, 2) == [out[|out| - dist], if dist == 1 then out[|out| - dist] else out[|out| - dist + 1]]
  {
    var m := |out| - dist;
    var o1 := out + [out[m]];
    var o2 := o1 + [o1[m + 1]];
    assert Inflate.Copy(out, dist, 2) == Inflate.Copy(o1, dist, 1) == Inflate.Copy(o2, dist, 0) == o2;
    assert o2 == out + [out[m], o1[m + 1]];
  }

  /** The three bytes that a match of length 3 stands for (copy3). */
  method Copy3(inb: array<byte>, at: nat, outb: array<byte>, op: nat, off: nat)
    requires at + 3 <= inb.Length && inb != outb && 1 <= off <= op <= outb.Length
    modifies inb
    ensures inb[..at] == old(inb[..at]) && inb[at + 3..] == old(inb[at + 3..])
    ensures inb[at..at + 3] == Copied(outb[..op], off, 3)
  {
    var m := op - off;
    inb[at] := outb[m];
    if off == 1 {
      inb[at + 1] := outb[m];
      inb[at + 2] := outb[m];
    } else if off == 2 {
      inb[at + 1] := outb[m + 1];
      inb[at + 2] := outb[m];
    } else {
      inb[at + 1] := outb[m + 1];
      inb[at + 2] := outb[m + 2];
    }
    CopiedThree(outb[..op], off);
    assert inb[at..at + 3] == [inb[at], inb[at + 1], inb[at + 2]];
  }

  lemma CopiedThree(out: seq<byte>, dist: nat)
    requires 1 <= dist <= |out|
    ensures var m := |out| - dist;
            Copied(out, dist, 3) ==
            [out[m], if dist == 1 then out[m] else out[m + 1], if dist <= 2 then out[m] else out[m + 2]]
  {
    var m := |out| - dist;
    var o1 := out + [out[m]];
    var o2 := o1 + [o1[m + 1]];
    var o3 := o2 + [o2[m + 2]];
    assert Inflate.Copy(out, dist, 3) == Inflate.Copy(o1, dist, 2);
    assert Inflate.Copy(o1, dist, 2) == Inflate.Copy(o2, dist, 1);
    assert Inflate.Copy(o2, dist, 1) == Inflate.Copy(o3, dist, 0) == o3;
    assert o3 == out + [out[m], o1[m + 1], o2[m + 2]];
  }

  /** memmove(a + at + 1, a + at, n). */
  method ShiftUp(a: array<byte>, at: nat, n: nat)
    requires at + n < a.Length
    modifies a
    ensures a[..at] == old(a[..at]) && a[at + 1..at + 1 + n] == old(a[at..at + n]) &&
      a[at + 1 + n..] == old(a[at + 1 + n..])
  {
    var i := n;
    while i > 0
      invariant 0 <= i <= n
      invariant forall j :: 0 <= j < a.Length && !(at + i < j <= at + n) ==> a[j] == old(a[j])
      invariant forall j :: at + i < j <= at + n ==> a[j] == old(a[..])[j - 1]
    {
      a[at + i] := a[at + i - 1];
      i := i - 1;
    }
  }

  class Optimizer {
    const inb: array<byte>
    const outb: array<byte>
    var ip: nat
    var op: nat
    var litp: int                 // the byte with the last literal count; negative for none
    var lit: nat                  // that count
    ghost const s0: seq<byte>     // the stream as it was
    ghost var k: Conf             // the instruction that litp belongs to

    constructor (inb: array<byte>, outb: array<byte>)
      ensures this.inb == inb && this.outb == outb && ip == 0 && op == 0 && litp == -1 && lit == 0 && s0 == inb[..]
    {
      this.inb, this.outb, ip, op, litp, lit := inb, outb, 0, 0, -1, 0;
      s0, k := inb[..], Conf(0, AfterMatch, []);
    }

    ghost predicate Sized()
      reads this
    {
      inb != outb && |s0| == inb.Length && ip <= inb.Length && op <= outb.Length &&
      Decode(s0).Some? && |Decode(s0).value.0| <= outb.Length
    }

    /** Before the instruction at ip. */
    ghost predicate Here(mode: Mode)
      reads this, inb, outb
    {
      Sized() && AgreeFrom(s0, inb[..], ip) && Tracks(s0, Conf(ip, mode, outb[..op])) &&
      Marked(inb[..], k, litp, lit, ip, mode, outb[..op])
    }

    method CopyLiterals(n: nat)
      requires inb != outb && ip + n <= inb.Length && op + n <= outb.Length
      modifies this`ip, this`op, outb
      ensures ip == old(ip) + n && op == old(op) + n && outb[..op] == old(outb[..op]) + inb[old(ip)..ip]
    {
      ghost var o := outb[..op];
      ghost var start := ip;
      var t := n;
      while t > 0
        invariant 0 <= t <= n && ip == start + (n - t) && op == |o| + (n - t)
        invariant outb[..op] == o + inb[start..ip]
      {
        outb[op] := inb[ip];
        assert outb[..op + 1] == outb[..op] + [inb[ip]];
        assert inb[start..ip + 1] == inb[start..ip] + [inb[ip]];
        op, ip, t := op + 1, ip + 1, t - 1;
      }
    }

    method CopyMatch(dist: nat, len: nat)
      requires 1 <= dist <= op && op + len <= outb.Length
      modifies this`op, outb
      ensures op == old(op) + len && outb[..op] == Inflate.Copy(old(outb[..op]), dist, len)
    {
      ghost var o := outb[..op];
      var t := len;
      while t > 0
        invariant 0 <= t <= len && op == |o| + (len - t)
        invariant Inflate.Copy(o, dist, len) == Inflate.Copy(outb[..op], dist, t)
      {
        outb[op] := outb[op - dist];
        assert outb[..op + 1] == outb[..op] + [outb[op - dist]];
        op, t := op + 1, t - 1;
      }
    }

    /** The bytes that continue a length. */
    method ReadExtended(base: nat) returns (t: nat)
      requires Extended(inb[..], ip, base).Some?
      modifies this`ip
      ensures Extended(inb[..], old(ip), base) == Some((t, ip))
    {
      t := base;
      ghost var r := Extended(inb[..], ip, base);
      while inb[ip] == 0
        invariant r == Extended(inb[..], ip, t)
        decreases inb.Length - ip
      {
        t, ip := t + 255, ip + 1;
      }
      t, ip := t + inb[ip], ip + 1;
    }

    /** The bytes of a match; stop says that it is the end mark. */
    method ReadMatch(mode: Mode) returns (stop: bool, len: nat, dist: nat)
      requires Parse(inb[..], ip, mode).Some? && ip < inb.Length && (inb[ip] >= 16 || mode != AfterMatch)
      modifies this`ip
      ensures 2 <= ip <= inb.Length
      ensures stop ==> Parse(inb[..], old(ip), mode) == Some(Stop(ip))
      ensures !stop ==> Parse(inb[..], old(ip), mode) == Some(Match(ip, len, dist, inb[ip - 2] % 4))
    {
      hide Extended;
      ghost var s := inb[..];
      var t: nat := inb[ip];
      ip := ip + 1;
      stop, len, dist := false, 2, 1;
      if t < 16 {
        var b: nat := inb[ip];
        dist := 1 + (if mode == AfterRun then 0x800 else 0) + t / 4 + 4 * b;
        len := if mode == AfterRun then 3 else 2;
        ip := ip + 1;
      } else if t >= 64 {
        var b: nat := inb[ip];
        dist := 1 + t / 4 % 8 + 8 * b;
        len := t / 32 + 1;
        ip := ip + 1;
      } else {
        stop, len, dist := ReadFar(t);
      }
    }

    method ReadFar(t: nat) returns (stop: bool, len: nat, dist: nat)
      requires 16 <= t < 64 && 1 <= ip && ip - 1 < inb.Length && FarMatch(inb[..], ip - 1, t).Some?
      modifies this`ip
      ensures 2 <= ip <= inb.Length
      ensures stop ==> FarMatch(inb[..], old(ip) - 1, t) == Some(Stop(ip))
      ensures !stop ==> FarMatch(inb[..], old(ip) - 1, t) == Some(Match(ip, len, dist, inb[ip - 2] % 4))
    {
      hide Extended;
      var l := if t >= 32 then t % 32 else t % 8;
      if l == 0 { l := ReadExtended(if t >= 32 then 31 else 7); }
      var lo: nat, hi: nat := inb[ip], inb[ip + 1];
      ip := ip + 2;
      var d := lo / 4 + 64 * hi;
      stop, len := false, l + 2;
      if t >= 32 {
        dist := d + 1;
      } else {
        dist := d + (if t / 8 % 2 == 1 then 0x4000 else 0);
        stop := dist == 0;
        dist := dist + 0x4000;
      }
    }

    /** The length of a literal run, without 3. */
    method ReadRun() returns (t: nat)
      requires ip < inb.Length && inb[ip] < 16 && Parse(inb[..], ip, AfterMatch).Some?
      modifies this`ip
      ensures Parse(inb[..], old(ip), AfterMatch) == Some(Run(ip, t + 3)) && ip > old(ip) && ip + t + 3 <= inb.Length
    {
      hide Extended, FarMatch;
      t := inb[ip];
      ip := ip + 1;
      if t == 0 { t := ReadExtended(15); }
    }

    /** A literal run. */
    method LiteralRun()
      requires Here(AfterMatch) && ip < inb.Length && inb[ip] < 16
      modifies this, outb
      ensures Here(AfterRun) && ip > old(ip)
    {
      hide Parse, Marked, Tracks, Decode, AgreeFrom;
      ghost var c, s := Conf(ip, AfterMatch, outb[..op]), inb[..];
      InstrHere(s0, s, k, litp, lit, c, AfterMatch);
      litp := ip;
      var t := ReadRun();
      ghost var p := ip;
      lit := t + 3;
      CopyRun(t);
      assert outb[..op] == c.out + s[p..ip];
      k := c;
      MarkRun(s0, s, c, ip, outb[..op]);
    }

    /** The bytes of the match at c have been read, up to ip. */
    ghost predicate HasRead(c: Conf, len: nat, dist: nat)
      reads this, inb, outb
    {
      Sized() && AgreeFrom(s0, inb[..], c.pos) && Tracks(s0, c) && outb[..op] == c.out && c.pos + 2 <= ip &&
      Marked(inb[..], k, litp, lit, c.pos, c.mode, c.out) &&
      Parse(inb[..], c.pos, c.mode) == Some(Match(ip, len, dist, inb[ip - 2] % 4))
    }

    /** Copy the match and the literals after it, and remember its literal count (copy_m, match_done). */
    method PlainMatch(ghost c: Conf, len: nat, dist: nat) returns (mode: Mode)
      requires HasRead(c, len, dist)
      modifies this, outb
      ensures Here(mode) && ip >= old(ip)
    {
      hide Parse, Marked, Tracks, Decode, AgreeFrom, Reaches;
      ghost var s := inb[..];
      MatchHere(s0, s, k, litp, lit, c, ip, len, dist);
      CopyMatch(dist, len);
      var t := inb[ip - 2] % 4;
      k := Conf(c.pos, if litp < 0 then c.mode else ModeOf(lit), c.out);
      lit, litp := t, ip - 2;
      mode := ModeOf(t);
      MarkMatch(s0, s, c, k, litp, lit, len, dist, outb[..op] + s[ip..ip + t]);
      FinishShort(t);
    }

    /** The literals after a match. */
    method FinishShort(t: nat)
      requires Sized() && ip + t <= inb.Length && op + t <= outb.Length && AgreeFrom(s0, inb[..], ip + t)
      requires Tracks(s0, Conf(ip + t, ModeOf(t), outb[..op] + inb[..][ip..ip + t]))
      requires Marked(inb[..], k, litp, lit, ip + t, ModeOf(t), outb[..op] + inb[..][ip..ip + t])
      modifies this`ip, this`op, outb
      ensures Here(ModeOf(t)) && ip >= old(ip)
    {
      hide Marked, Tracks, Decode, AgreeFrom, ModeOf;
      ghost var s, o, p := inb[..], outb[..op], ip;
      if t != 0 { CopyLiterals(t); }
      assert inb[..] == s && outb[..op] == o + s[p..ip];
    }

    /** The rewrites m1_a and m3_a: three literals after the previous match instead of this one. */
    method IntoShort(ghost c: Conf, len: nat, dist: nat)
      requires HasRead(c, len, dist) && litp >= 0 && lit + len == 3 && 2 <= len && ip == c.pos + len
      requires inb[ip - 2] % 4 == 0 && ip < inb.Length && inb[ip] >= 16
      modifies this, inb, outb
      ensures Here(AfterMatch) && ip >= old(ip)
    {
      hide Parse, Tracks, Decode, AgreeFrom, Agree, Reaches, Step, Inflate.Copy, Copied, Marked;
      ghost var s := inb[..];
      ShortMark(s, k, litp, lit, c);
      MatchHere(s0, s, k, litp, lit, c, ip, len, dist);
      NextIs(s0, s, c, ip, len, dist);
      ghost var lit0 := lit;
      lit := lit + len;
      inb[litp] := inb[litp] / 4 * 4 + lit;
      ghost var s1 := inb[..];
      if len == 2 { Copy2(inb, ip - 2, outb, op, dist); } else { Copy3(inb, ip - 3, outb, op, dist); }
      Patched(s, s1, inb[..], litp, c.pos, ip);
      CopyMatch(dist, len);
      ShortRewrite(s, inb[..], k, litp, lit0, c.pos, c.mode, c.out, len, dist);
      FromTrans(s0, s, inb[..], ip);
    }

    /** Copy a run of t + 3 literals (copy_literal_run). */
    method CopyRun(t: nat)
      requires inb != outb && ip + t + 3 <= inb.Length && op + t + 3 <= outb.Length
      modifies this`ip, this`op, outb
      ensures ip == old(ip) + t + 3 && op == old(op) + t + 3 && outb[..op] == old(outb[..op]) + inb[old(ip)..ip]
    {
      ghost var start := ip;
      CopyLiterals(3);
      CopyLiterals(t);
      assert inb[start..start + 3] + inb[start + 3..ip] == inb[start..ip];
    }

    /** The literals of a run that has just been rewritten. */
    method FinishRun(t: nat)
      requires Sized() && ip + t + 3 <= inb.Length && op + t + 3 <= outb.Length && AgreeFrom(s0, inb[..], ip + t + 3)
      requires Tracks(s0, Conf(ip + t + 3, AfterRun, outb[..op] + inb[..][ip..ip + t + 3]))
      requires Marked(inb[..], k, litp, lit, ip + t + 3, AfterRun, outb[..op] + inb[..][ip..ip + t + 3])
      modifies this`ip, this`op, outb
      ensures Here(AfterRun) && ip >= old(ip)
    {
      hide Marked, Tracks, Decode, AgreeFrom;
      ghost var s, o, p := inb[..], outb[..op], ip;
      CopyRun(t);
      assert inb[..] == s && outb[..op] == o + s[p..ip];
    }

    /** The rewrites m1_b and m3_b: this match and the literals around it become one run. */
    method IntoRun(ghost c: Conf, len: nat, dist: nat)
      requires HasRead(c, len, dist) && litp >= 0 && lit <= 3 && 2 <= len <= 3 && ip == c.pos + len
      requires inb[ip - 2] % 4 == 0 && ip < inb.Length && 1 <= inb[ip] && lit + len + inb[ip] < 16
      modifies this, inb, outb
      ensures Here(AfterRun) && ip >= old(ip)
    {
      hide Parse, Tracks, Decode, AgreeFrom, Agree, Reaches, Step, Inflate.Copy, Copied, Marked;
      ghost var s := inb[..];
      ShortMark(s, k, litp, lit, c);
      MatchHere(s0, s, k, litp, lit, c, ip, len, dist);
      NextIs(s0, s, c, ip, len, dist);
      ghost var o := Inflate.Copy(c.out, dist, len);
      RunIs(s0, s, ip, o);
      ghost var litp0, lit0 := litp, lit;
      var t: nat := inb[ip];
      ip := ip + 1;
      MakeRun(inb, outb, litp, lit, ip, op, len, dist, t);
      litp := litp + 2;
      lit := lit + len + t + 3;
      CopyMatch(dist, len);
      k := RunRewrite(s, inb[..], k, litp0, lit0, c.pos, c.mode, c.out, len, dist, t);
      SameFrom(s0, s, inb[..], ip - 1, ip, ip + t + 3);
      FinishRun(t);
    }

    /** The rewrite m2: two runs and the match between them become one run. */
    method IntoOneRun(ghost c: Conf, dist: nat)
      requires HasRead(c, 3, dist) && litp >= 0 && lit > 3 && ip == c.pos + 2
      requires inb[ip - 2] % 4 == 0 && ip < inb.Length && 1 <= inb[ip] && lit + 3 + inb[ip] < 16
      modifies this, inb, outb
      ensures Here(AfterRun) && ip >= old(ip)
    {
      hide Parse, Tracks, Decode, AgreeFrom, Agree, Reaches, Step, Inflate.Copy, Copied, Marked;
      ghost var s := inb[..];
      MatchHere(s0, s, k, litp, lit, c, ip, 3, dist);
      NextIs(s0, s, c, ip, 3, dist);
      RunIs(s0, s, ip, Inflate.Copy(c.out, dist, 3));
      LongMark(s, k, litp, lit, c);
      ghost var lit0 := lit;
      var t: nat := inb[ip];
      ip := ip + 1;
      lit := lit + 3 + t + 3;
      MakeOneRun(inb, outb, litp, ip, op, dist, lit);
      CopyMatch(dist, 3);
      BetweenRewrite(s, inb[..], k, litp, lit0, c.pos, c.mode, c.out, dist, t);
      SameFrom(s0, s, inb[..], ip - 1, ip, ip + t + 3);
      FinishRun(t);
    }

    /** A match, rewritten if that does not make the stream longer. */
    method DoMatch(mode: Mode) returns (mode': Mode, stop: bool)
      requires Here(mode) && ip < inb.Length && (inb[ip] >= 16 || mode != AfterMatch)
      modifies this, inb, outb
      ensures !stop ==> Here(mode') && ip > old(ip)
      ensures stop ==> Sized() && inb[..] == old(inb[..]) && Decode(s0).value == (outb[..op], ip)
      ensures stop ==> op == old(op) && outb[..] == old(outb[..]) && litp == old(litp) && lit == old(lit) && k == old(k)
    {
      hide Marked, Tracks, Decode, AgreeFrom, Extended, FarMatch;
      ghost var c := Conf(ip, mode, outb[..op]);
      InstrHere(s0, inb[..], k, litp, lit, c, mode);
      var t: nat := inb[ip];
      var len, dist;
      stop, len, dist := ReadMatch(mode);
      if stop { return mode, true; }
      mode' := ChooseRewrite(c, mode, t, len, dist);
    }

    method ChooseRewrite(ghost c: Conf, before: Mode, t: nat, len: nat, dist: nat) returns (mode: Mode)
      requires HasRead(c, len, dist) && t == inb[c.pos] && c.mode == before
      modifies this, inb, outb
      ensures Here(mode) && ip >= old(ip)
    {
      hide Marked, Tracks, Decode, AgreeFrom, Extended;
      if litp < 0 || (t < 16 && before == AfterRun) {
        mode := PlainMatch(c, len, dist);
        return;
      }
      var nl := inb[ip - 2] % 4;
      NextByte(s0, inb[..], k, litp, lit, c, ip, len, dist);
      if t < 16 && nl == 0 && lit == 1 && inb[ip] >= 16 {
        IntoShort(c, len, dist);
        mode := AfterMatch;
      } else if t < 16 && nl == 0 && inb[ip] < 16 && inb[ip] != 0 && lit + 2 + inb[ip] < 16 {
        IntoRun(c, len, dist);
        mode := AfterRun;
      } else if t >= 64 && len == 3 && lit > 3 && nl == 0 && inb[ip] < 16 && inb[ip] != 0 && lit + 3 + inb[ip] < 16 {
        IntoOneRun(c, dist);
        mode := AfterRun;
      } else if 16 <= t < 64 && len == 3 && lit == 0 && nl == 0 && inb[ip] >= 16 {
        IntoShort(c, len, dist);
        mode := AfterMatch;
      } else if 16 <= t < 64 && len == 3 && lit <= 3 && nl == 0 && inb[ip] < 16 && inb[ip] != 0 &&
        lit + 3 + inb[ip] < 16 {
        IntoRun(c, len, dist);
        mode := AfterRun;
      } else {
        mode := PlainMatch(c, len, dist);
      }
    }

    /** The first byte of the stream. */
    method Begin() returns (mode: Mode)
      requires ip == 0 && op == 0 && litp == -1 && s0 == inb[..] && inb != outb
      requires Decode(inb[..]).Some? && |Decode(inb[..]).value.0| <= outb.Length
      modifies this`ip, this`op, outb
      ensures Here(mode)
    {
      hide Steps, Reaches;
      ghost var s := inb[..];
      ReachesStart(s);
      OutputGrows(s, Start(s).value);
      mode := AfterMatch;
      assert outb[..0] == [];
      if inb[0] > 17 {
        var t := inb[0] - 17;
        ip := 1;
        CopyLiterals(t);
        assert outb[..op] == [] + s[1..ip] == s[1..ip];
        mode := if t < 4 then AfterShort else AfterRun;
      }
      assert Start(s) == Some(Conf(ip, mode, outb[..op]));
    }

    /** The loop, until the end mark is found or the output reaches outLen. */
    method Loop(start: Mode, outLen: nat) returns (status: Status)
      requires Here(start)
      modifies this, inb, outb
      ensures Sized() && Decode(inb[..]) == Decode(s0)
      ensures status != EofNotFound ==>
        Decode(s0).value == (outb[..op], ip) && status == if ip == inb.Length then Ok else InputNotConsumed
      ensures status == EofNotFound ==> outLen < |Decode(s0).value.0|
    {
      hide Marked, Tracks, Decode, AgreeFrom, Parse;
      var mode := start;
      while mode == AfterRun || ((if mode == AfterShort then ip + 1 else ip) < inb.Length && op <= outLen)
        invariant Here(mode)
        decreases inb.Length - ip
      {
        TwoBytes(s0, inb[..], k, litp, lit, Conf(ip, mode, outb[..op]));
        if mode == AfterMatch && inb[ip] < 16 {
          LiteralRun();
          mode := AfterRun;
        } else {
          Decoded(mode);
          var stop;
          mode, stop := DoMatch(mode);
          if stop {
            return if ip == inb.Length then Ok else if ip < inb.Length then InputNotConsumed else InputOverrun;
          }
        }
      }
      TwoBytes(s0, inb[..], k, litp, lit, Conf(ip, mode, outb[..op]));
      Decoded(mode);
      return EofNotFound;
    }

    lemma Decoded(mode: Mode)
      requires Here(mode)
      ensures Decode(inb[..]) == Decode(s0)
    {
      hide Marked, Decode, AgreeFrom, Steps;
      MarkedDecodes(inb[..], s0, k, litp, lit, ip, mode, outb[..op]);
    }
  }

  lemma TwoBytes(s0: seq<byte>, s: seq<byte>, k: Conf, litp: int, lit: nat, c: Conf)
    requires AgreeFrom(s0, s, c.pos) && Tracks(s0, c) && Marked(s, k, litp, lit, c.pos, c.mode, c.out)
    ensures c.pos < |s| == |s0| && (c.mode == AfterShort ==> c.pos + 1 < |s|) && |c.out| <= |Decode(s0).value.0|
  {
    hide Marked, Tracks, Decode, AgreeFrom, Extended;
    InstrHere(s0, s, k, litp, lit, c, c.mode);
    TracksStep(s0, c);
  }

  /** lzo1x_optimize: out_len is the room in the output; the stream keeps its length and its meaning. */
  method Optimize(inb: array<byte>, outb: array<byte>, outLen: nat) returns (status: Status, produced: nat)
    requires inb != outb && Decode(inb[..]).Some? && |Decode(inb[..]).value.0| <= outb.Length
    modifies inb, outb
    ensures Decode(inb[..]) == old(Decode(inb[..])) && produced <= outb.Length
    ensures status != EofNotFound ==>
      Decode(inb[..]).value.0 == outb[..produced] && (status == Ok <==> Decode(inb[..]).value.1 == inb.Length) &&
        status != InputOverrun
    ensures outLen >= |Decode(inb[..]).value.0| ==> status != EofNotFound
  {
    hide Decode, Marked, Tracks;
    var o := new Optimizer(inb, outb);
    var mode := o.Begin();
    status := o.Loop(mode, outLen);
    produced := o.op;
  }

  lemma LongMark(s: seq<byte>, k: Conf, litp: nat, lit: nat, c: Conf)
    requires Marked(s, k, litp, lit, c.pos, c.mode, c.out) && 3 < lit < 19
    ensures c.pos == litp + 1 + lit
  {
    hide Parse, Reaches;
    DirectRun(s, k, litp, lit, c.pos, c.out);
  }

  lemma ShortMark(s: seq<byte>, k: Conf, litp: nat, lit: nat, c: Conf)
    requires Marked(s, k, litp, lit, c.pos, c.mode, c.out) && lit <= 3
    ensures c.pos == litp + 2 + lit
  {
    hide Parse, Reaches, Inflate.Copy;
  }

  /** Replace a match of len bytes before ip - 1 and the run byte at ip - 1 by literals, and put the run byte at litp +
      2. */
  method MakeRun(inb: array<byte>, outb: array<byte>, litp: nat, lit: nat, ip: nat, op: nat, len: nat, dist: nat,
                 t: nat)
    requires inb != outb && 2 <= len <= 3 && litp + 2 + lit + len + 1 == ip <= inb.Length &&
      1 <= dist <= op <= outb.Length
    requires lit + len + t < 16
    modifies inb
    ensures Agree(old(inb[..]), inb[..], litp) && inb[litp] == old(inb[litp]) / 4 * 4 &&
      inb[litp + 1] == old(inb[litp + 1])
    ensures inb[litp + 2] == lit + len + t
    ensures inb[litp + 3..ip] == old(inb[litp + 2..litp + 2 + lit]) + Copied(outb[..op], dist, len)
    ensures AgreeFrom(old(inb[..]), inb[..], ip)
  {
    ghost var s, x := inb[..], Copied(outb[..op], dist, len);
    inb[litp] := inb[litp] / 4 * 4;
    if len == 2 { Copy2(inb, ip - len, outb, op, dist); } else { Copy3(inb, ip - len, outb, op, dist); }
    ghost var s1 := inb[..];
    assert s1[..ip - len] == s[litp := s[litp] / 4 * 4][..ip - len] && s1[ip - len..ip] == x && s1[ip..] == s[ip..];
    if lit > 0 { ShiftUp(inb, litp + 2, lit); }
    ghost var s2 := inb[..];
    assert s2[..litp + 2] == s1[..litp + 2] && s2[litp + 3..ip - len] == s1[litp + 2..ip - len - 1] &&
      s2[ip - len..] == s1[ip - len..];
    inb[litp + 2] := lit + len + t;
    RunMade(s, s1, s2, inb[..], litp, lit, ip, len, x);
  }

  /** Replace a match of two bytes and the run byte at ip - 1 by literals, and set the run byte at litp. */
  method MakeOneRun(inb: array<byte>, outb: array<byte>, litp: nat, ip: nat, op: nat, dist: nat, lit: nat)
    requires inb != outb && litp + 3 < ip <= inb.Length && 1 <= dist <= op <= outb.Length && 3 < lit < 19
    modifies inb
    ensures Agree(old(inb[..]), inb[..], litp) && inb[litp] == lit - 3 &&
      inb[..][litp + 1..ip - 3] == old(inb[..])[litp + 1..ip - 3]
    ensures inb[..][ip - 3..ip] == Copied(outb[..op], dist, 3) && AgreeFrom(old(inb[..]), inb[..], ip)
  {
    hide Copied;
    ghost var s := inb[..];
    Copy3(inb, ip - 3, outb, op, dist);
    inb[litp] := lit - 3;
    ghost var s1 := s[litp := inb[litp]];
    assert inb[..][..ip - 3] == s1[..ip - 3] && inb[..][ip..] == s1[ip..];
    Patched(s, s1, inb[..], litp, ip - 3, ip);
  }

  lemma RunMade(s: seq<byte>, s1: seq<byte>, s2: seq<byte>, s3: seq<byte>, litp: nat, lit: nat, ip: nat, len: nat,
                x: seq<byte>)
    requires litp + 2 + lit + len + 1 == ip <= |s| == |s1| == |s2| == |s3| && |x| == len
    requires s1[..ip - len] == s[litp := s[litp] / 4 * 4][..ip - len] && s1[ip - len..ip] == x && s1[ip..] == s[ip..]
    requires s2[..litp + 2] == s1[..litp + 2] && s2[litp + 3..ip - len] == s1[litp + 2..ip - len - 1] &&
      s2[ip - len..] == s1[ip - len..]
    requires s3 == s2[litp + 2 := s3[litp + 2]]
    ensures Agree(s, s3, litp) && s3[litp] == s[litp] / 4 * 4 && s3[litp + 1] == s[litp + 1]
    ensures s3[litp + 3..ip] == s[litp + 2..litp + 2 + lit] + x && AgreeFrom(s, s3, ip)
  {
    var a, v := ip - len, s[litp := s[litp] / 4 * 4];
    assert forall i :: 0 <= i < a ==> s1[i] == s1[..a][i] == v[..a][i] == v[i];
    assert forall i :: 0 <= i < litp + 2 ==> s2[i] == s2[..litp + 2][i] == s1[..litp + 2][i];
    assert s1[litp + 2..a - 1] == s[litp + 2..a - 1];
    assert s3[litp + 3..a] == s2[litp + 3..a];
    assert s3[a..ip] == s2[a..][..len] == s1[a..][..len] == s1[a..ip];
    assert s3[litp + 3..ip] == s3[litp + 3..a] + s3[a..ip];
    assert s3[ip..] == s2[a..][len..] == s1[a..][len..] == s1[ip..];
  }

  lemma SameFrom(s0: seq<byte>, s: seq<byte>, s': seq<byte>, a: nat, b: nat, e: nat)
    requires AgreeFrom(s0, s, a) && AgreeFrom(s, s', b) && a <= b <= e <= |s|
    ensures s'[b..e] == s[b..e] && AgreeFrom(s0, s', e)
  {
    FromSlice(s, s', b, b, e);
    FromSlice(s0, s, a, e, e);
    FromSlice(s, s', b, e, e);
  }

  /** What the first byte of a match tells about its size, and that something follows it. */
  lemma NextByte(s0: seq<byte>, s: seq<byte>, k: Conf, litp: nat, lit: nat, c: Conf, p: nat, len: nat, dist: nat)
    requires AgreeFrom(s0, s, c.pos) && Tracks(s0, c) && Marked(s, k, litp, lit, c.pos, c.mode, c.out) && c.pos < |s|
    requires 2 <= p <= |s| && Parse(s, c.pos, c.mode) == Some(Match(p, len, dist, s[p - 2] % 4))
    ensures s[p - 2] % 4 == 0 ==> p < |s|
    ensures s[c.pos] < 16 || s[c.pos] >= 64 ==> p == c.pos + 2
    ensures 16 <= s[c.pos] < 64 && len == 3 ==> p == c.pos + 3
    ensures s[c.pos] < 16 && c.mode != AfterRun ==> len == 2 && 1 <= lit <= 3
  {
    hide Tracks, Decode, AgreeFrom, Reaches, Owns;
    MatchHere(s0, s, k, litp, lit, c, p, len, dist);
    if s[p - 2] % 4 == 0 {
      NextIs(s0, s, c, p, len, dist);
      TracksStep(s0, Conf(p, AfterMatch, Inflate.Copy(c.out, dist, len)));
      FromLength(s0, s, c.pos);
    }
  }

  /** A short run follows. */
  lemma RunIs(s0: seq<byte>, s: seq<byte>, p: nat, out: seq<byte>)
    requires AgreeFrom(s0, s, p) && Tracks(s0, Conf(p, AfterMatch, out)) && p < |s| && 1 <= s[p] < 16
    ensures p + s[p] + 4 <= |s| == |s0| && |out| + s[p] + 3 <= |Decode(s0).value.0|
    ensures Tracks(s0, Conf(p + s[p] + 4, AfterRun, out + s[p + 1..p + s[p] + 4]))
  {
    hide Tracks, Decode, AgreeFrom, Extended;
    FromLength(s0, s, p);
    FromAt(s0, s, p, p);
    TracksStep(s0, Conf(p, AfterMatch, out));
    ShortRun(s0, p, s[p], out);
    FromSlice(s0, s, p, p + 1, p + s[p] + 4);
  }

  /** The bytes at litp and from a to b have been replaced. */
  lemma Patched(s: seq<byte>, s1: seq<byte>, s': seq<byte>, litp: nat, a: nat, b: nat)
    requires litp < a <= b <= |s| == |s1| == |s'| && s1 == s[litp := s1[litp]] && s'[..a] == s1[..a] &&
      s'[b..] == s1[b..]
    ensures Agree(s, s', litp) && s'[litp] == s1[litp] && s'[litp + 1..a] == s[litp + 1..a] && AgreeFrom(s, s', b)
  {
    assert forall i :: 0 <= i < a ==> s'[i] == s'[..a][i] == s1[..a][i];
  }

  lemma FromTrans(s0: seq<byte>, s: seq<byte>, s': seq<byte>, n: nat)
    requires AgreeFrom(s0, s, n) && AgreeFrom(s, s', n)
    ensures AgreeFrom(s0, s', n)
  {
  }

  /** After a match without literals. */
  lemma NextIs(s0: seq<byte>, s: seq<byte>, c: Conf, p: nat, len: nat, dist: nat)
    requires AgreeFrom(s0, s, c.pos) && c.pos + 2 <= p <= |s| &&
      Parse(s, c.pos, c.mode) == Some(Match(p, len, dist, 0)) && 1 <= dist <= |c.out|
    requires Step(s, c).Some? && Step(s, c).value.Next? && Tracks(s0, Step(s, c).value.conf)
    ensures Tracks(s0, Conf(p, AfterMatch, Inflate.Copy(c.out, dist, len))) && AgreeFrom(s0, s, p)
  {
    hide Parse, Tracks, AgreeFrom, Inflate.Copy;
    FromLength(s0, s, c.pos);
    FromSlice(s0, s, c.pos, p, p);
    assert Inflate.Copy(c.out, dist, len) + s[p..p] == Inflate.Copy(c.out, dist, len);
  }

  lemma MatchHere(s0: seq<byte>, s: seq<byte>, k: Conf, litp: int, lit: nat, c: Conf, p: nat, len: nat, dist: nat)
    requires AgreeFrom(s0, s, c.pos) && Tracks(s0, c) && Marked(s, k, litp, lit, c.pos, c.mode, c.out)
    requires 2 <= p <= |s| && Parse(s, c.pos, c.mode) == Some(Match(p, len, dist, s[p - 2] % 4))
    ensures 1 <= dist <= |c.out| && p + s[p - 2] % 4 <= |s| && |c.out| + len + s[p - 2] % 4 <= |Decode(s0).value.0|
    ensures var m := if litp < 0 then c.mode else ModeOf(lit);
            Reaches(s, Conf(c.pos, m, c.out)) && Parse(s, c.pos, m) == Parse(s, c.pos, c.mode)
    ensures Step(s0, c) == Step(s, c) && Step(s, c).Some? && Step(s, c).value.Next? && Tracks(s0, Step(s, c).value.conf)
  {
    hide Extended, FarMatch, Tracks, Decode, Reaches, Steps, AgreeFrom, Owns, Inflate.Copy;
    InstrHere(s0, s, k, litp, lit, c, c.mode);
    MarkedReaches(s, k, litp, lit, c.pos, c.mode, c.out);
    CopyExtends(c.out, dist, len);
  }

  lemma MarkMatch(s0: seq<byte>, s: seq<byte>, c: Conf, k: Conf, litp: nat, lit: nat, len: nat, dist: nat,
                  out: seq<byte>)
    requires AgreeFrom(s0, s, c.pos) && Step(s0, c) == Step(s, c) && Step(s, c).Some? && Step(s, c).value.Next?
    requires Tracks(s0, Step(s, c).value.conf) && 1 <= dist <= |c.out| && k.pos == c.pos && k.out == c.out &&
      Reaches(s, k)
    requires Parse(s, c.pos, c.mode) == Parse(s, k.pos, k.mode) == Some(Match(litp + 2, len, dist, lit)) &&
      litp + 2 + lit <= |s|
    requires out == Inflate.Copy(c.out, dist, len) + s[litp + 2..litp + 2 + lit] && lit < 4
    ensures AgreeFrom(s0, s, litp + 2 + lit) && Tracks(s0, Conf(litp + 2 + lit, ModeOf(lit), out))
    ensures Marked(s, k, litp, lit, litp + 2 + lit, ModeOf(lit), out)
  {
    hide Extended, FarMatch, Tracks, Decode, Reaches, Steps, AgreeFrom, Inflate.Copy;
    FromLength(s0, s, c.pos);
    FromSlice(s0, s, c.pos, litp + 2 + lit, litp + 2 + lit);
  }

  /** The instruction at ip is the same in the rewritten and in the original stream, and it can be reached. */
  lemma InstrHere(s0: seq<byte>, s: seq<byte>, k: Conf, litp: int, lit: nat, c: Conf, mode: Mode)
    requires AgreeFrom(s0, s, c.pos) && Tracks(s0, c) && Marked(s, k, litp, lit, c.pos, c.mode, c.out) && c.mode == mode
    ensures c.pos < |s| == |s0| && Parse(s, c.pos, mode).Some? && Parse(s0, c.pos, mode) == Parse(s, c.pos, mode)
    ensures Step(s0, c) == Step(s, c) && Step(s, c).Some?
    ensures Step(s, c).value.Next? ==>
      Tracks(s0, Step(s, c).value.conf) && |Step(s, c).value.conf.out| <= |Decode(s0).value.0|
    ensures Step(s, c).value.Done? ==> Decode(s0).value == (c.out, Step(s, c).value.pos)
    ensures s[c.pos] < 16 ==> Reaches(s, c)
  {
    hide Extended, Tracks, Decode, Reaches, Parse, Step, Steps, AgreeFrom, Owns;
    TracksStep(s0, c);
    FromLength(s0, s, c.pos);
    ParseFrom(s0, s, c.pos, mode);
    StepsFrom(s0, s, c);
    MarkedReaches(s, k, litp, lit, c.pos, mode, c.out);
  }

  lemma MarkRun(s0: seq<byte>, s: seq<byte>, c: Conf, ip: nat, out: seq<byte>)
    requires Reaches(s, c) && c.mode == AfterMatch && AgreeFrom(s0, s, c.pos) && Tracks(s0, c)
    requires Parse(s, c.pos, AfterMatch).Some? && Parse(s, c.pos, AfterMatch).value.Run?
    requires var i := Parse(s, c.pos, AfterMatch).value; ip == i.p + i.n && out == c.out + s[i.p..ip]
    ensures AgreeFrom(s0, s, ip) && Tracks(s0, Conf(ip, AfterRun, out))
    ensures Marked(s, c, c.pos, Parse(s, c.pos, AfterMatch).value.n, ip, AfterRun, out)
  {
    hide Extended, Tracks, Decode, Reaches, Parse, AgreeFrom, Steps;
    FromLength(s0, s, c.pos);
    FromSlice(s0, s, c.pos, ip, ip);
    StepsFrom(s0, s, c);
    TracksStep(s0, c);
  }
}
