/** Run-length coding of code lengths (section 3.2.7 of RFC 1951): the state machine
    that scan_tree and send_tree of gzip.c both run, and its inverse. */
module RunLength {
  import opened Bits
  import opened Limits
  import opened Canonical
  import opened Inflate

  const REP_3_6: nat := 16
  const REPZ_3_10: nat := 17
  const REPZ_11_138: nat := 18
  const GUARD: nat := 0xffff

  /** A code length symbol with its extra bits. */
  datatype Sym = Sym(code: nat, extra: nat, width: nat)

  function Plain(len: nat): (s: Sym) { Sym(len, 0, 0) }

  /** k copies of a length sent one by one. */
  function Plains(len: nat, k: nat): (r: seq<Sym>)
    ensures |r| == k && forall i :: 0 <= i < k ==> r[i] == Plain(len)
  {
    seq(k, _ => Plain(len))
  }

  /** What a run of count equal lengths is sent as. */
  function Run(cur: nat, prev: int, count: nat, min: nat): (r: seq<Sym>)
  {
    if count < min then Plains(cur, count)
    else if cur != 0 then
      if cur != prev then [Plain(cur), Sym(REP_3_6, if count >= 4 then count - 4 else 0, 2)]
      else [Sym(REP_3_6, if count >= 3 then count - 3 else 0, 2)]
    else if count <= 10 then [Sym(REPZ_3_10, if count >= 3 then count - 3 else 0, 3)]
    else [Sym(REPZ_11_138, count - 11, 7)]
  }

  function NextLen(lens: seq<nat>, n: nat): (l: nat)
  {
    if n + 1 < |lens| then lens[n + 1] else GUARD
  }

  function MaxCount(next: nat, same: bool): (m: nat) { if next == 0 then 138 else if same then 6 else 7 }
  function MinCount(next: nat, same: bool): (m: nat) { if next == 0 then 3 else if same then 3 else 4 }

  /** The symbols still to come when lens[n] is next, count copies of it are pending
      and prev is the length last sent. */
  function Encode(lens: seq<nat>, n: nat, prev: int, count: nat, max: nat, min: nat): (r: seq<Sym>)
    decreases |lens| - n
  {
    if n >= |lens| then []
    else
      var cur, next := lens[n], NextLen(lens, n);
      if count + 1 < max && cur == next then Encode(lens, n + 1, prev, count + 1, max, min)
      else
        var (max', min') := (MaxCount(next, cur == next), MinCount(next, cur == next));
        Run(cur, prev, count + 1, min) + Encode(lens, n + 1, cur, 0, max', min')
  }

  /** The run-length form of a table of code lengths. */
  function RunLengths(lens: seq<nat>): (r: seq<Sym>)
  {
    if lens == [] then []
    else Encode(lens, 0, -1, 0, MaxCount(lens[0], false), MinCount(lens[0], false))
  }

  /** The lengths a symbol stands for, after acc. */
  function Expand1(s: Sym, acc: seq<nat>): (r: seq<nat>)
  {
    if s.code < 16 then [s.code]
    else if s.code == REP_3_6 then Repeat(if acc == [] then 0 else acc[|acc| - 1], 3 + s.extra)
    else if s.code == REPZ_3_10 then Repeat(0, 3 + s.extra)
    else Repeat(0, 11 + s.extra)
  }

  function Expand(syms: seq<Sym>, acc: seq<nat>): (r: seq<nat>)
  {
    if syms == [] then acc else Expand(syms[1..], acc + Expand1(syms[0], acc))
  }

  /** A symbol the format allows after acc. */
  predicate Legal(s: Sym, acc: seq<nat>)
  {
    s.code < BL_CODES && s.extra < Pow2(s.width) &&
    s.width == (if s.code < 16 then 0 else if s.code == 16 then 2 else if s.code == 17 then 3 else 7) &&
    (s.code == 16 ==> acc != [])
  }

  predicate AllLegal(syms: seq<Sym>, acc: seq<nat>)
  {
    syms == [] || (Legal(syms[0], acc) && AllLegal(syms[1..], acc + Expand1(syms[0], acc)))
  }

  lemma {:induction false} ExpandConcat(a: seq<Sym>, b: seq<Sym>, acc: seq<nat>)
    ensures Expand(a + b, acc) == Expand(b, Expand(a, acc))
    ensures AllLegal(a + b, acc) <==> AllLegal(a, acc) && AllLegal(b, Expand(a, acc))
    decreases |a|
  {
    if a == [] {
      assert a + b == b;
    } else {
      assert (a + b)[1..] == a[1..] + b;
      ExpandConcat(a[1..], b, acc + Expand1(a[0], acc));
    }
  }

  lemma {:induction false} ExpandPlain(cur: nat, k: nat, acc: seq<nat>)
    requires cur < 16
    ensures Expand(Plains(cur, k), acc) == acc + Repeat(cur, k)
    ensures AllLegal(Plains(cur, k), acc)
    decreases k
  {
    var s := Plains(cur, k);
    if k > 0 {
      var t := Plains(cur, k - 1);
      assert s[1..] == t;
      ExpandPlain(cur, k - 1, acc + [cur]);
      assert acc + [cur] + Repeat(cur, k - 1) == acc + Repeat(cur, k);
    } else {
      assert acc + Repeat(cur, 0) == acc;
    }
  }

  /** The bounds on a run that the limits max and min maintain. */
  predicate RunBounds(cur: nat, prev: int, count: nat, min: nat)
  {
    count >= 1 && cur < 16 &&
    if cur == 0 then min == 3 && count <= 138
    else if cur == prev then min == 3 && count <= 6
    else min == 4 && count <= 7
  }

  /** A run decodes to its lengths. */
  lemma RunExpands(cur: nat, prev: int, count: nat, min: nat, acc: seq<nat>)
    requires RunBounds(cur, prev, count, min)
    requires prev == -1 || (acc != [] && acc[|acc| - 1] == prev)
    ensures Expand(Run(cur, prev, count, min), acc) == acc + Repeat(cur, count)
    ensures AllLegal(Run(cur, prev, count, min), acc)
  {
    var r := Run(cur, prev, count, min);
    if count < min {
      ExpandPlain(cur, count, acc);
    } else if cur != 0 && cur != prev {
      ExpandTwo(Plain(cur), r[1], acc);
      assert acc + [cur] + Repeat(cur, count - 1) == acc + Repeat(cur, count);
    } else {
      ExpandOne(r[0], acc);
    }
  }

  lemma ExpandOne(s: Sym, acc: seq<nat>)
    requires Legal(s, acc)
    ensures Expand([s], acc) == acc + Expand1(s, acc) && AllLegal([s], acc)
  {
    assert [s][1..] == [];
  }

  lemma ExpandTwo(s: Sym, t: Sym, acc: seq<nat>)
    requires Legal(s, acc) && Legal(t, acc + Expand1(s, acc))
    ensures var acc' := acc + Expand1(s, acc);
            Expand([s, t], acc) == acc' + Expand1(t, acc') && AllLegal([s, t], acc)
  {
    assert [s, t][1..] == [t];
    ExpandOne(t, acc + Expand1(s, acc));
  }

  /** The state of the machine at lens[n]. */
  ghost predicate Machine(lens: seq<nat>, n: nat, prev: int, count: nat, max: nat, min: nat)
  {
    count <= n <= |lens| && (forall i :: 0 <= i < |lens| ==> lens[i] < 16) &&
    (n == |lens| ==> count == 0) &&
    (n < |lens| ==>
      (forall i :: n - count <= i < n ==> lens[i] == lens[n]) && count < max &&
      (prev == -1 || (n > count && prev == lens[n - count - 1])) &&
      (if lens[n] == 0 then max == 138 && min == 3 else if lens[n] == prev then max == 6 && min == 3
        else max == 7 && min == 4))
  }

  lemma MachineStep(lens: seq<nat>, n: nat, prev: int, count: nat, max: nat, min: nat)
    requires Machine(lens, n, prev, count, max, min) && n < |lens|
    ensures var cur, next := lens[n], NextLen(lens, n);
            if count + 1 < max && cur == next then Machine(lens, n + 1, prev, count + 1, max, min)
            else RunBounds(cur, prev, count + 1, min) &&
                 Machine(lens, n + 1, cur, 0, MaxCount(next, cur == next), MinCount(next, cur == next))
  {
  }

  lemma MachineStart(lens: seq<nat>)
    requires lens != [] && forall i :: 0 <= i < |lens| ==> lens[i] < 16
    ensures Machine(lens, 0, -1, 0, MaxCount(lens[0], false), MinCount(lens[0], false))
  {
  }

  /** From any state of the machine, what it sends decodes to the lengths not yet sent. */
  lemma {:induction false} EncodeExpands(lens: seq<nat>, n: nat, prev: int, count: nat, max: nat, min: nat,
                                         base: seq<nat>)
    requires Machine(lens, n, prev, count, max, min)
    ensures Expand(Encode(lens, n, prev, count, max, min), base + lens[..n - count]) == base + lens
    ensures AllLegal(Encode(lens, n, prev, count, max, min), base + lens[..n - count])
    decreases |lens| - n
  {
    hide Machine, Run, RunBounds, Expand, AllLegal;
    MachineFacts(lens, n, prev, count, max, min);
    if n == |lens| {
      assert base + lens[..n] == base + lens;
      ExpandNil(base + lens);
    } else {
      MachineStep(lens, n, prev, count, max, min);
      var cur, next := lens[n], NextLen(lens, n);
      if count + 1 < max && cur == next {
        EncodeExpands(lens, n + 1, prev, count + 1, max, min, base);
      } else {
        var max', min' := MaxCount(next, cur == next), MinCount(next, cur == next);
        var acc := base + lens[..n - count];
        RunExpands(cur, prev, count + 1, min, acc);
        EncodeExpands(lens, n + 1, cur, 0, max', min', base);
        assert acc + Repeat(cur, count + 1) == base + lens[..n + 1];
        ExpandConcat(Run(cur, prev, count + 1, min), Encode(lens, n + 1, cur, 0, max', min'), acc);
      }
    }
  }

  lemma ExpandNil(acc: seq<nat>)
    ensures Expand([], acc) == acc && AllLegal([], acc)
  {
  }

  lemma MachineFacts(lens: seq<nat>, n: nat, prev: int, count: nat, max: nat, min: nat)
    requires Machine(lens, n, prev, count, max, min)
    ensures count <= n <= |lens| && (n == |lens| ==> count == 0)
    ensures n < |lens| ==> forall i :: n - count <= i <= n ==> lens[i] == lens[n]
    ensures n < |lens| && prev != -1 ==> n > count && prev == lens[n - count - 1]
  {
  }

  /** The run-length form of a table decodes, after any other lengths, to the table. */
  lemma RoundTrip(lens: seq<nat>, base: seq<nat>)
    requires forall i :: 0 <= i < |lens| ==> lens[i] < 16
    ensures Expand(RunLengths(lens), base) == base + lens && AllLegal(RunLengths(lens), base)
  {
    if lens == [] {
      assert base + lens == base;
    } else {
      MachineStart(lens);
      EncodeExpands(lens, 0, -1, 0, MaxCount(lens[0], false), MinCount(lens[0], false), base);
      assert base + lens[..0] == base;
    }
  }

  // ---- on the wire ----

  ghost predicate Within(cl: seq<nat>, syms: seq<Sym>)
  {
    forall i :: 0 <= i < |syms| ==> syms[i].code < |cl| && cl[syms[i].code] > 0
  }

  function OneSym(cl: seq<nat>, s: Sym): (b: seq<bool>)
    requires s.code < |cl|
  {
    CodeBits(cl, s.code) + Lsb(s.extra, s.width)
  }

  /** The bits of a sequence of code length symbols under the code with lengths cl. */
  ghost function SymBits(cl: seq<nat>, syms: seq<Sym>): (b: seq<bool>)
    requires Within(cl, syms)
  {
    if syms == [] then [] else OneSym(cl, syms[0]) + SymBits(cl, syms[1..])
  }

  lemma {:induction false} SymBitsConcat(cl: seq<nat>, a: seq<Sym>, b: seq<Sym>)
    requires Within(cl, a) && Within(cl, b)
    ensures Within(cl, a + b) && SymBits(cl, a + b) == SymBits(cl, a) + SymBits(cl, b)
    decreases |a|
  {
    hide OneSym;
    if a == [] {
      assert a + b == b;
      assert SymBits(cl, a) + SymBits(cl, b) == SymBits(cl, b);
    } else {
      assert (a + b)[1..] == a[1..] + b;
      SymBitsConcat(cl, a[1..], b);
      var h, x, y := OneSym(cl, a[0]), SymBits(cl, a[1..]), SymBits(cl, b);
      assert (h + x) + y == h + (x + y);
    }
  }

  lemma SymBitsOne(cl: seq<nat>, s: Sym)
    requires s.code < |cl| && cl[s.code] > 0
    ensures Within(cl, [s]) && SymBits(cl, [s]) == OneSym(cl, s)
  {
    assert [s][1..] == [];
    assert OneSym(cl, s) + [] == OneSym(cl, s);
  }

  /** Reading the bits of legal symbols gives the lengths they stand for. */
  lemma {:induction false} LengthsDecode(cl: seq<nat>, syms: seq<Sym>, bits: seq<bool>, pos: nat, n: nat, acc: seq<nat>)
    requires Decodable(cl, 7) && Within(cl, syms) && AllLegal(syms, acc)
    requires At(bits, pos, SymBits(cl, syms)) && |Expand(syms, acc)| == n
    ensures Lengths(cl, bits, pos, n, acc) == Some((Expand(syms, acc), pos + |SymBits(cl, syms)|))
    decreases |syms|
  {
    hide Decodable, Lengths, OneSym, At, Legal;
    if syms == [] {
      LengthsDone(cl, bits, pos, acc);
    } else {
      var s, rest := syms[0], syms[1..];
      var acc' := acc + Expand1(s, acc);
      AtSplit(bits, pos, OneSym(cl, s), SymBits(cl, rest));
      ExpandGrows(rest, acc');
      LengthsStep(cl, s, bits, pos, n, acc);
      LengthsDecode(cl, rest, bits, pos + |OneSym(cl, s)|, n, acc');
    }
  }

  lemma LengthsDone(cl: seq<nat>, bits: seq<bool>, pos: nat, acc: seq<nat>)
    ensures Lengths(cl, bits, pos, |acc|, acc) == Some((acc, pos))
  {
  }

  lemma {:induction false} ExpandGrows(syms: seq<Sym>, acc: seq<nat>)
    ensures |Expand(syms, acc)| >= |acc|
    decreases |syms|
  {
    if syms != [] { ExpandGrows(syms[1..], acc + Expand1(syms[0], acc)); }
  }

  lemma LengthsStep(cl: seq<nat>, s: Sym, bits: seq<bool>, pos: nat, n: nat, acc: seq<nat>)
    requires Decodable(cl, 7) && s.code < |cl| && cl[s.code] > 0 && Legal(s, acc)
    requires At(bits, pos, OneSym(cl, s)) && |acc| + |Expand1(s, acc)| <= n
    ensures Lengths(cl, bits, pos, n, acc) == Lengths(cl, bits, pos + |OneSym(cl, s)|, n, acc + Expand1(s, acc))
  {
    hide Decodable, CodeBits, Lsb, At, Number, Symbol, Pow2, Repeat;
    assert OneSym(cl, s) == CodeBits(cl, s.code) + Lsb(s.extra, s.width);
    AtSplit(bits, pos, CodeBits(cl, s.code), Lsb(s.extra, s.width));
    SymbolReads(cl, 7, bits, pos, s.code);
    NumberReads(bits, pos + cl[s.code], s.extra, s.width);
  }
}
