/** What one start of the recovery program does to the misc partition, as steps of the restartable protocol. */
module BcbRuns {
  import opened Bits
  import opened BcbText
  import opened BcbProtocol
  import BcbArgs
  import D = BcbDevice

  /** The states tr are passed through by the steps. */
  ghost predicate Path(tr: seq<State>, steps: seq<Step>)
  {
    |tr| == |steps| + 1 && forall i :: 0 <= i < |steps| ==> Next(tr[i], tr[i + 1], steps[i])
  }

  /** State s of the protocol describes what the partition and the command file hold. */
  ghost predicate Describes(s: State, misc: D.Misc, file: Option<CString>)
    requires misc.Valid()
    reads misc.part
  {
    s.field == D.Field(misc.Stored()) && s.file == file
  }

  /** The outcome of a write that leaves the field left. */
  function OutcomeOf(io: D.Io, left: CString): (o: Outcome)
  {
    match io
    case Done => Outcome.Done
    case Refused => Outcome.Refused
    case Torn(_) => Outcome.Torn(left)
  }

  /** get_args: the control block is read, the arguments are chosen, and they are written back. */
  method Start(misc: D.Misc, given: seq<CString>, file: Option<CString>, readFails: bool, io: D.Io, ghost s: State)
    returns (r: Option<seq<CString>>, ghost tr: seq<State>, ghost steps: seq<Step>)
    requires misc.Valid() && s.phase.Off? && Describes(s, misc, file)
    modifies misc.part
    ensures Path(tr, steps) && tr[0] == s && Describes(tr[|steps|], misc, file)
    ensures r == BcbArgs.ChooseArgs(given, if readFails then [] else s.field, file)
    ensures r.Some? ==>
      var o := OutcomeOf(io, D.Field(misc.Stored()));
      steps == [Boot(given, !readFails), Choose, WriteBcb(o)] &&
      tr[|steps|] == Written(s, o, Image(r.value), r).(phase := Working(r.value))
    ensures r.None? ==> tr[|steps|].phase == Off && steps == [Boot(given, !readFails), Choose]
  {
    hide BcbArgs.ChooseArgs, Image, D.Field;
    r := D.GetArgs(misc, given, file, readFails, io);
    ghost var s1 := s.(phase := Loaded(given, if readFails then None else Some(s.field)));
    if r.None? {
      tr, steps := [s, s1, s], [Boot(given, !readFails), Choose];
    } else {
      ghost var s2, o := s.(phase := Chosen(r.value)), OutcomeOf(io, D.Field(misc.Stored()));
      ghost var s3 := Written(s2, o, Image(r.value), Some(r.value)).(phase := Working(r.value));
      tr, steps := [s, s1, s2, s3], [Boot(given, !readFails), Choose, WriteBcb(o)];
    }
  }

  /** The end of finish_recovery: the control block is cleared, then the command file is removed. */
  method Finish(misc: D.Misc, file: Option<CString>, io: D.Io, unlinked: bool, ghost s: State)
    returns (left: Option<CString>, ghost tr: seq<State>, ghost steps: seq<Step>)
    requires misc.Valid() && s.phase.Working? && Describes(s, misc, file)
    modifies misc.part
    ensures Path(tr, steps) && tr[0] == s && Describes(tr[|steps|], misc, left) && tr[|steps|].phase == Finished
    ensures steps == [ClearBcb(OutcomeOf(io, D.Field(misc.Stored()))), Unlink(unlinked)]
  {
    hide Image, D.Field;
    var ok := D.Clear(misc, io);
    left := if unlinked then None else file;
    ghost var o := OutcomeOf(io, D.Field(misc.Stored()));
    ghost var s1 := Written(s, o, [], None).(phase := Finishing);
    tr, steps := [s, s1, s1.(file := left, phase := Finished)], [ClearBcb(o), Unlink(unlinked)];
  }

  lemma {:induction false} PathsJoin(tr: seq<State>, steps: seq<Step>, tr': seq<State>, steps': seq<Step>)
    requires Path(tr, steps) && Path(tr', steps') && tr'[0] == tr[|steps|]
    ensures Path(tr + tr'[1..], steps + steps') && |tr'| == |steps'| + 1
  {
    hide Next;
    var all, a := tr + tr'[1..], steps + steps';
    forall i | 0 <= i < |a| ensures Next(all[i], all[i + 1], a[i]) {
      if i >= |steps| {
        var k := i - |steps|;
        assert Next(tr'[k], tr'[k + 1], steps'[k]) && all[i] == tr'[k] && all[i + 1] == tr'[k + 1];
      } else {
        assert Next(tr[i], tr[i + 1], steps[i]);
      }
    }
  }

  /** Whether every start writes or is refused: none of the writes is torn. */
  predicate NoneTorn(ios: seq<D.Io>)
  {
    forall i :: 0 <= i < |ios| ==> !ios[i].Torn?
  }

  /** The program is started over and over without arguments, with a new command file each time, and is cut off before
      it finishes: it works with the same arguments every time. */
  method StartAgain(misc: D.Misc, files: seq<Option<CString>>, ios: seq<D.Io>, ghost v: seq<CString>,
                    ghost s: State)
    returns (rs: seq<Option<seq<CString>>>, ghost tr: seq<State>, ghost steps: seq<Step>)
    requires misc.Valid() && |files| == |ios| && NoneTorn(ios) && Stable(v) && v != []
    requires s.phase == Working(v) && s.armed == Some(v) && D.Field(misc.Stored()) == s.field == Image(v)
    modifies misc.part
    ensures Path(tr, steps) && tr[0] == s && |rs| == |files| && D.Field(misc.Stored()) == Image(v)
    ensures forall i :: 0 <= i < |rs| ==> rs[i] == Some(v)
    ensures tr[|steps|].phase == Working(v)
  {
    hide Next, Image, D.Field, Stable, Path, BcbArgs.ChooseArgs;
    rs, tr, steps := [], [s], [];
    PathStarts(s);
    var n := 0;
    while n < |files|
      invariant 0 <= n <= |files| && |rs| == n && Path(tr, steps) && |tr| == |steps| + 1 && tr[0] == s
      invariant D.Field(misc.Stored()) == Image(v) && tr[|steps|].field == Image(v)
      invariant tr[|steps|].phase == Working(v) && tr[|steps|].armed == Some(v)
      invariant forall i :: 0 <= i < |rs| ==> rs[i] == Some(v)
    {
      ghost var off := tr[|steps|].(phase := Off, file := files[n]);
      CutOff(tr[|steps|], files[n]);
      PathsJoin(tr, steps, [tr[|steps|], tr[|steps|].(phase := Off), off], [Crash, Command(files[n])]);
      tr, steps := tr + [tr[|steps|].(phase := Off), off], steps + [Crash, Command(files[n])];
      ChoosesArmed(v, files[n]);
      ghost var tr', steps';
      var r;
      r, tr', steps' := Start(misc, [], files[n], false, ios[n], off);
      PathsJoin(tr, steps, tr', steps');
      tr, steps := tr + tr'[1..], steps + steps';
      rs, n := rs + [r], n + 1;
    }
  }

  lemma CutOff(s: State, file: Option<CString>)
    ensures Path([s, s.(phase := Off), s.(phase := Off, file := file)], [Crash, Command(file)])
  {
  }

  lemma PathStarts(s: State)
    ensures Path([s], [])
  {
  }
}
