/** scan_tree and send_tree of gzip.c: two passes over a table of code lengths, the
    first counting the symbols of its run-length form, the second sending them. */
module TreeSender {
  import opened Bits
  import opened Limits
  import opened Canonical
  import opened RunLength
  import GenCodes
  import BitSink

  function Tally(syms: seq<Sym>, c: nat): (k: nat)
    ensures k <= |syms|
  {
    if syms == [] then 0 else Tally(syms[..|syms| - 1], c) + if syms[|syms| - 1].code == c then 1 else 0
  }

  lemma {:induction false} TallyConcat(a: seq<Sym>, b: seq<Sym>, c: nat)
    ensures Tally(a + b, c) == Tally(a, c) + Tally(b, c)
    decreases |b|
  {
    if b == [] {
      assert a + b == a;
    } else {
      assert (a + b)[..|a + b| - 1] == a + b[..|b| - 1];
      TallyConcat(a, b[..|b| - 1], c);
    }
  }

  lemma {:induction false} TallySame(cur: nat, k: nat, c: nat)
    ensures Tally(Plains(cur, k), c) == if cur == c then k else 0
    decreases k
  {
    if k > 0 {
      assert Plains(cur, k)[..k - 1] == Plains(cur, k - 1);
      TallySame(cur, k - 1, c);
    }
  }

  lemma TallyOne(s: Sym, c: nat)
    ensures Tally([s], c) == if s.code == c then 1 else 0
  {
    assert [s][..0] == [];
  }

  lemma TallyTwo(s: Sym, t: Sym, c: nat)
    ensures Tally([s, t], c) == (if s.code == c then 1 else 0) + (if t.code == c then 1 else 0)
  {
    assert [s, t][..1] == [s];
    TallyOne(s, c);
  }

  /** What scan_tree adds for one run. */
  lemma RunTally(cur: nat, prev: int, count: nat, min: nat, c: nat)
    requires count >= 1 && min <= 4
    ensures |Run(cur, prev, count, min)| <= count || count < 2
    ensures Tally(Run(cur, prev, count, min), c) ==
      if count < min then (if c == cur then count else 0)
      else if cur != 0 then (if cur != prev && c == cur then 1 else 0) + (if c == REP_3_6 then 1 else 0)
      else if count <= 10 then (if c == REPZ_3_10 then 1 else 0)
      else (if c == REPZ_11_138 then 1 else 0)
  {
    var r := Run(cur, prev, count, min);
    if count < min {
      TallySame(cur, count, c);
    } else if cur != 0 && cur != prev {
      TallyTwo(r[0], r[1], c);
    } else {
      TallyOne(r[0], c);
    }
  }

  /** Where a pass over the table stands: done has been treated, the rest is still to come. */
  ghost predicate Pass(lens: seq<nat>, n: nat, prev: int, count: nat, max: nat, min: nat, done: seq<Sym>)
  {
    Machine(lens, n, prev, count, max, min) && |done| <= n - count &&
    done + Encode(lens, n, prev, count, max, min) == RunLengths(lens)
  }

  lemma PassStart(lens: seq<nat>)
    requires lens != [] && forall i :: 0 <= i < |lens| ==> lens[i] < 16
    ensures Pass(lens, 0, -1, 0, MaxCount(lens[0], false), MinCount(lens[0], false), [])
  {
    MachineStart(lens);
    assert [] + RunLengths(lens) == RunLengths(lens);
  }

  lemma PassStep(lens: seq<nat>, n: nat, prev: int, count: nat, max: nat, min: nat, done: seq<Sym>)
    requires Pass(lens, n, prev, count, max, min, done) && n < |lens|
    ensures var cur, next := lens[n], NextLen(lens, n);
            if count + 1 < max && cur == next then Pass(lens, n + 1, prev, count + 1, max, min, done)
            else RunBounds(cur, prev, count + 1, min) &&
                 Pass(lens, n + 1, cur, 0, MaxCount(next, cur == next), MinCount(next, cur == next),
                      done + Run(cur, prev, count + 1, min))
  {
    hide Machine, Run;
    MachineStep(lens, n, prev, count, max, min);
    var cur, next := lens[n], NextLen(lens, n);
    if !(count + 1 < max && cur == next) {
      RunTally(cur, prev, count + 1, min, 0);
      RunShort(cur, prev, count + 1, min);
      var r, e := Run(cur, prev, count + 1, min),
        Encode(lens, n + 1, cur, 0, MaxCount(next, cur == next), MinCount(next, cur == next));
      assert done + (r + e) == (done + r) + e;
    }
  }

  lemma RunShort(cur: nat, prev: int, count: nat, min: nat)
    requires RunBounds(cur, prev, count, min)
    ensures |Run(cur, prev, count, min)| <= count
  {
  }

  lemma PassEnd(lens: seq<nat>, prev: int, count: nat, max: nat, min: nat, done: seq<Sym>)
    requires Pass(lens, |lens|, prev, count, max, min, done)
    ensures done == RunLengths(lens) && |done| <= |lens|
  {
    assert done + [] == done;
  }

  lemma PassFacts(lens: seq<nat>, n: nat, prev: int, count: nat, max: nat, min: nat, done: seq<Sym>)
    requires Pass(lens, n, prev, count, max, min, done)
    ensures count <= n <= |lens| && |done| <= n - count && (n < |lens| ==> count < max)
    ensures forall i :: 0 <= i < |lens| ==> lens[i] < 16
  {
  }

  /** The frequencies counted so far. */
  ghost predicate Counted(freq: seq<nat>, freq0: seq<nat>, done: seq<Sym>)
  {
    |freq| == |freq0| >= BL_CODES &&
    (forall c :: 0 <= c < BL_CODES ==> freq[c] == freq0[c] + Tally(done, c)) &&
    (forall c :: BL_CODES <= c < |freq| ==> freq[c] == freq0[c])
  }

  lemma CountedRun(freq: seq<nat>, freq': seq<nat>, freq0: seq<nat>, done: seq<Sym>, run: seq<Sym>)
    requires Counted(freq, freq0, done) && |freq'| == |freq|
    requires forall c :: 0 <= c < BL_CODES ==> freq'[c] == freq[c] + Tally(run, c)
    requires forall c :: BL_CODES <= c < |freq| ==> freq'[c] == freq[c]
    ensures Counted(freq', freq0, done + run)
  {
    hide Tally;
    forall c | 0 <= c < BL_CODES ensures freq'[c] == freq0[c] + Tally(done + run, c) { TallyConcat(done, run, c); }
  }

  /** One run of scan_tree. */
  method CountRun(freq: array<ush>, cur: nat, prev: int, count: nat, min: nat)
    requires freq.Length >= BL_CODES && RunBounds(cur, prev, count, min)
    requires forall c :: 0 <= c < BL_CODES ==> freq[c] as int + count < 0x10000
    modifies freq
    ensures forall c :: 0 <= c < BL_CODES ==> freq[c] == old(freq[c]) + Tally(Run(cur, prev, count, min), c)
    ensures forall c :: BL_CODES <= c < freq.Length ==> freq[c] == old(freq[c])
  {
    hide Tally, Run;
    forall c | 0 <= c < BL_CODES
      ensures Tally(Run(cur, prev, count, min), c) ==
        if count < min then (if c == cur then count else 0)
        else if cur != 0 then (if cur != prev && c == cur then 1 else 0) + (if c == REP_3_6 then 1 else 0)
        else if count <= 10 then (if c == REPZ_3_10 then 1 else 0)
        else (if c == REPZ_11_138 then 1 else 0)
    {
      RunTally(cur, prev, count, min, c);
    }
    if count < min {
      freq[cur] := freq[cur] + count;
    } else if cur != 0 {
      if cur != prev { freq[cur] := freq[cur] + 1; }
      freq[REP_3_6] := freq[REP_3_6] + 1;
    } else if count <= 10 {
      freq[REPZ_3_10] := freq[REPZ_3_10] + 1;
    } else {
      freq[REPZ_11_138] := freq[REPZ_11_138] + 1;
    }
  }

  /** The counts grow by what the run-length code of the lengths will use of each symbol. */
  method ScanTree(dl: array<ush>, maxCode: nat, freq: array<ush>)
    requires dl != freq && maxCode + 1 < dl.Length && freq.Length >= BL_CODES
    requires forall i :: 0 <= i <= maxCode ==> dl[i] < 16
    requires forall c :: 0 <= c < BL_CODES ==> freq[c] as int + maxCode + 1 < 0x10000
    modifies dl, freq
    ensures dl[..] == old(dl[..])[maxCode + 1 := GUARD]
    ensures Counted(freq[..], old(freq[..]), RunLengths(dl[..maxCode + 1]))
    ensures |RunLengths(dl[..maxCode + 1])| <= maxCode + 1
  {
    hide Pass, Counted, Run, RunBounds, RunLengths;
    ghost var lens: seq<nat>, freq0: seq<nat> := dl[..maxCode + 1], freq[..];
    var prevlen: int := -1;
    var nextlen: nat := dl[0];
    var count, max_count, min_count := 0, 7, 4;
    if nextlen == 0 { max_count, min_count := 138, 3; }
    dl[maxCode + 1] := GUARD;
    PassStart(lens);
    ghost var done := [];
    CountedNone(freq0);
    for n := 0 to maxCode + 1
      invariant dl[..] == old(dl[..])[maxCode + 1 := GUARD] && nextlen == dl[n]
      invariant Pass(lens, n, prevlen, count, max_count, min_count, done)
      invariant Counted(freq[..], freq0, done)
    {
      var curlen := nextlen;
      nextlen := dl[n + 1];
      assert curlen == lens[n] && nextlen == NextLen(lens, n);
      PassStep(lens, n, prevlen, count, max_count, min_count, done);
      PassFacts(lens, n, prevlen, count, max_count, min_count, done);
      CountedBound(freq[..], freq0, done);
      count := count + 1;
      if count < max_count && curlen == nextlen { continue; }
      assert forall c :: 0 <= c < BL_CODES ==> freq[c] as int + count < 0x10000 by {
        assert forall c :: 0 <= c < BL_CODES ==> freq[c] == freq[..][c] && freq0[c] == old(freq[c]);
      }
      ghost var f: seq<nat> := freq[..];
      CountRun(freq, curlen, prevlen, count, min_count);
      CountedRun(f, freq[..], freq0, done, Run(curlen, prevlen, count, min_count));
      done := done + Run(curlen, prevlen, count, min_count);
      count := 0;
      prevlen := curlen;
      max_count, min_count := 7, 4;
      if nextlen == 0 {
        max_count, min_count := 138, 3;
      } else if curlen == nextlen {
        max_count, min_count := 6, 3;
      }
    }
    PassEnd(lens, prevlen, count, max_count, min_count, done);
    assert dl[..maxCode + 1] == lens;
  }

  lemma CountedNone(freq: seq<nat>)
    requires |freq| >= BL_CODES
    ensures Counted(freq, freq, [])
  {
  }

  lemma CountedBound(freq: seq<nat>, freq0: seq<nat>, done: seq<Sym>)
    requires Counted(freq, freq0, done)
    ensures |freq| == |freq0| && forall c :: 0 <= c < BL_CODES ==> freq[c] <= freq0[c] + |done|
  {
  }

  // ---- sending ----

  /** A finished tree, as the sending functions read it. */
  datatype CodeTree = CodeTree(code: seq<nat>, len: seq<nat>)

  /** The codes of t are those of the table lens that a decoder uses. */
  ghost predicate Ready(t: CodeTree, lens: seq<nat>)
  {
    |t.code| == |t.len| && Bounded(lens, 15) &&
    forall c :: 0 <= c < |lens| && c < |t.code| && lens[c] > 0 ==>
      t.len[c] == lens[c] && GenCodes.Codes(t.code[c], lens, c)
  }

  method SendCode(sink: BitSink.Sink, t: CodeTree, c: nat, ghost lens: seq<nat>)
    requires sink.Valid() && Ready(t, lens)
    requires c < |lens| && c < |t.code| && lens[c] > 0
    modifies sink, sink.outbuf
    ensures sink.Valid() && sink.Stream() == old(sink.Stream()) + CodeBits(lens, c)
  {
    hide Lsb, CodeBits, Pow2;
    assert t.len[c] == lens[c] && GenCodes.Codes(t.code[c], lens, c);
    sink.SendBits(t.code[c], t.len[c]);
  }

  /** One symbol with its extra bits. */
  method SendSym(sink: BitSink.Sink, t: CodeTree, s: Sym, ghost lens: seq<nat>)
    requires sink.Valid() && Ready(t, lens)
    requires s.code < |lens| <= |t.code| && lens[s.code] > 0
    requires s.extra < Pow2(s.width) && s.width <= 16
    modifies sink, sink.outbuf
    ensures sink.Valid() && sink.Stream() == old(sink.Stream()) + OneSym(lens, s)
  {
    hide Lsb, CodeBits, Pow2;
    ghost var st := sink.Stream();
    SendCode(sink, t, s.code, lens);
    if s.width > 0 { sink.SendBits(s.extra, s.width); }
    else { assert Lsb(s.extra, 0) == []; }
    assert sink.Stream() == st + (CodeBits(lens, s.code) + Lsb(s.extra, s.width));
  }

  /** Runs of legal symbols can be sent one by one. */
  lemma {:induction false} PlainBits(cl: seq<nat>, cur: nat, k: nat)
    requires cur < |cl| && cl[cur] > 0
    ensures Within(cl, Plains(cur, k + 1)) && Within(cl, Plains(cur, k))
    ensures SymBits(cl, Plains(cur, k + 1)) == SymBits(cl, Plains(cur, k)) + CodeBits(cl, cur)
  {
    hide SymBits, CodeBits;
    var s := Plains(cur, k);
    assert Plains(cur, k + 1) == s + [Plain(cur)];
    SymBitsOne(cl, Plain(cur));
    SymBitsConcat(cl, s, [Plain(cur)]);
    OnePlain(cl, cur);
  }

  lemma OnePlain(cl: seq<nat>, cur: nat)
    requires cur < |cl|
    ensures OneSym(cl, Plain(cur)) == CodeBits(cl, cur)
  {
    assert Lsb(0, 0) == [];
    assert CodeBits(cl, cur) + [] == CodeBits(cl, cur);
  }

  lemma SymBitsTwo(cl: seq<nat>, s: Sym, t: Sym)
    requires s.code < |cl| && cl[s.code] > 0 && t.code < |cl| && cl[t.code] > 0
    ensures Within(cl, [s, t]) && SymBits(cl, [s, t]) == OneSym(cl, s) + OneSym(cl, t)
  {
    hide SymBits, OneSym;
    assert [s, t] == [s] + [t];
    assert [s, t][0] == s && [s, t][1] == t;
    SymBitsOne(cl, s);
    SymBitsOne(cl, t);
    SymBitsConcat(cl, [s], [t]);
  }

  method SendRun(sink: BitSink.Sink, t: CodeTree, cur: nat, prev: int, count0: nat, min: nat, ghost cl: seq<nat>)
    requires sink.Valid() && |cl| <= |t.code| && Ready(t, cl)
    requires RunBounds(cur, prev, count0, min) && Within(cl, Run(cur, prev, count0, min))
    modifies sink, sink.outbuf
    ensures sink.Valid() && sink.Stream() == old(sink.Stream()) + SymBits(cl, Run(cur, prev, count0, min))
  {
    hide SymBits, OneSym, CodeBits, Ready;
    Pow2Small();
    ghost var st := sink.Stream();
    ghost var run := Run(cur, prev, count0, min);
    if count0 < min {
      SendPlain(sink, t, cur, count0, cl);
    } else if cur != 0 {
      var count := count0;
      if cur != prev {
        assert run[0] == Plain(cur) && run[1] == Sym(REP_3_6, count0 - 4, 2);
        SendCode(sink, t, cur, cl);
        OnePlain(cl, cur);
        count := count - 1;
        SymBitsTwo(cl, run[0], run[1]);
      } else {
        assert run[0] == Sym(REP_3_6, count0 - 3, 2);
        SymBitsOne(cl, run[0]);
      }
      SendSym(sink, t, Sym(REP_3_6, count - 3, 2), cl);
    } else if count0 <= 10 {
      assert run[0] == Sym(REPZ_3_10, count0 - 3, 3);
      SymBitsOne(cl, run[0]);
      SendSym(sink, t, Sym(REPZ_3_10, count0 - 3, 3), cl);
    } else {
      assert run[0] == Sym(REPZ_11_138, count0 - 11, 7);
      SymBitsOne(cl, run[0]);
      SendSym(sink, t, Sym(REPZ_11_138, count0 - 11, 7), cl);
    }
  }

  lemma Pow2Small()
    ensures Pow2(2) == 4 && Pow2(3) == 8 && Pow2(7) == 128
  {
  }

  method SendPlain(sink: BitSink.Sink, t: CodeTree, cur: nat, count0: nat, ghost cl: seq<nat>)
    requires sink.Valid() && |cl| <= |t.code| && Ready(t, cl)
    requires count0 >= 1 && Within(cl, Plains(cur, count0))
    modifies sink, sink.outbuf
    ensures sink.Valid() && sink.Stream() == old(sink.Stream()) + SymBits(cl, Plains(cur, count0))
  {
    hide SymBits, CodeBits, Ready, Plains, Within, BitSink.Sink.Valid, BitSink.Sink.Stream;
    var count := count0;
    ghost var st := sink.Stream();
    PlainsWithin(cl, cur, count0);
    SymBitsNone(cl, cur);
    assert st == st + SymBits(cl, Plains(cur, 0));
    while true
      invariant 1 <= count <= count0 && sink.Valid()
      invariant Within(cl, Plains(cur, count0 - count))
      invariant sink.Stream() == st + SymBits(cl, Plains(cur, count0 - count))
      decreases count
    {
      PlainBits(cl, cur, count0 - count);
      SendCode(sink, t, cur, cl);
      SeqSum(st, SymBits(cl, Plains(cur, count0 - count)), CodeBits(cl, cur));
      count := count - 1;
      if count == 0 { break; }
    }
  }

  lemma PlainsWithin(cl: seq<nat>, cur: nat, k: nat)
    requires k >= 1 && Within(cl, Plains(cur, k))
    ensures cur < |cl| && cl[cur] > 0
  {
    assert Plains(cur, k)[0] == Plain(cur);
  }

  lemma SymBitsNone(cl: seq<nat>, cur: nat)
    ensures Within(cl, Plains(cur, 0)) && SymBits(cl, Plains(cur, 0)) == []
  {
  }

  /** The stream grows by the run-length code of the lengths, symbol for symbol what was counted. */
  method SendTree(sink: BitSink.Sink, tree: seq<nat>, maxCode: nat, t: CodeTree, ghost cl: seq<nat>)
    requires sink.Valid() && |cl| <= |t.code| && Ready(t, cl)
    requires maxCode + 1 < |tree| && tree[maxCode + 1] == GUARD
    requires forall i :: 0 <= i <= maxCode ==> tree[i] < 16
    requires Within(cl, RunLengths(tree[..maxCode + 1]))
    modifies sink, sink.outbuf
    ensures sink.Valid() && sink.Stream() == old(sink.Stream()) + SymBits(cl, RunLengths(tree[..maxCode + 1]))
  {
    hide Pass, Run, RunBounds, RunLengths, SymBits, Within, Ready;
    ghost var lens: seq<nat>, st := tree[..maxCode + 1], sink.Stream();
    var prevlen: int := -1;
    var nextlen: nat := tree[0];
    var count, max_count, min_count := 0, 7, 4;
    if nextlen == 0 { max_count, min_count := 138, 3; }
    PassStart(lens);
    ghost var done := [];
    NothingSent(cl);
    assert st == st + SymBits(cl, done);
    for n := 0 to maxCode + 1
      invariant nextlen == tree[n] && sink.Valid()
      invariant Pass(lens, n, prevlen, count, max_count, min_count, done)
      invariant Within(cl, done) && sink.Stream() == st + SymBits(cl, done)
    {
      var curlen := nextlen;
      nextlen := tree[n + 1];
      assert curlen == lens[n] && nextlen == NextLen(lens, n);
      PassStep(lens, n, prevlen, count, max_count, min_count, done);
      count := count + 1;
      if count < max_count && curlen == nextlen { continue; }
      ghost var run := Run(curlen, prevlen, count, min_count);
      PassPart(lens, n + 1, curlen, 0, MaxCount(nextlen, curlen == nextlen), MinCount(nextlen, curlen == nextlen), done,
        run, cl);
      SendRun(sink, t, curlen, prevlen, count, min_count, cl);
      SymBitsConcat(cl, done, run);
      assert st + SymBits(cl, done) + SymBits(cl, run) == st + (SymBits(cl, done) + SymBits(cl, run));
      done := done + run;
      count := 0;
      prevlen := curlen;
      if nextlen == 0 {
        max_count, min_count := 138, 3;
      } else if curlen == nextlen {
        max_count, min_count := 6, 3;
      } else {
        max_count, min_count := 7, 4;
      }
    }
    PassEnd(lens, prevlen, count, max_count, min_count, done);
  }

  lemma NothingSent(cl: seq<nat>)
    ensures Within(cl, []) && SymBits(cl, []) == []
  {
  }

  lemma PassPart(lens: seq<nat>, n: nat, prev: int, count: nat, max: nat, min: nat, done: seq<Sym>, run: seq<Sym>,
                 cl: seq<nat>)
    requires Pass(lens, n, prev, count, max, min, done + run) && Within(cl, RunLengths(lens))
    ensures Within(cl, done) && Within(cl, run)
  {
    hide Machine, Encode, RunLengths;
    var all := RunLengths(lens);
    assert forall i :: 0 <= i < |done| ==> done[i] == all[i];
    assert forall i :: 0 <= i < |run| ==> run[i] == all[|done| + i];
  }
}
