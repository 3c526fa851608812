/** The restartable recovery protocol of main.c: runs of the recovery program that may be
    cut off between any two steps, over what survives in flash. */
module BcbProtocol {
  import opened Bits
  import opened BcbText
  import opened BcbArgs

  /** Where a run stands; Off between runs. */
  datatype Phase =
    | Off
    | Loaded(given: seq<CString>, read: Option<CString>)    // the control block has been read, or could not be
    | Chosen(args: seq<CString>)                            // the arguments are known
    | Working(args: seq<CString>)                           // ... and written to the control block, unless that failed
    | Finishing                                             // the control block has been cleared, unless that failed
    | Finished

  /** field and file survive a crash. armed is the vector last written to the control block and not cleared since. */
  datatype State = State(field: CString, file: Option<CString>, phase: Phase, armed: Option<seq<CString>>)

  /** A write of the control block is done, or refused before anything is written, or torn: then the field may hold
      anything. A crash in the middle of a write is a torn write followed by a crash. */
  datatype Outcome = Done | Refused | Torn(left: CString)

  /** The field and what is known of it after a write of the text f for the vector v. */
  ghost function Written(s: State, o: Outcome, f: CString, v: Option<seq<CString>>): (s': State)
  {
    match o
    case Done => s.(field := f, armed := v)
    case Refused => s
    case Torn(left) => s.(field := left, armed := None)
  }

  datatype Step =
    | Boot(given: seq<CString>, readOk: bool)
    | Choose
    | WriteBcb(o: Outcome)
    | Wipe
    | ClearBcb(o: Outcome)
    | Unlink(ok: bool)
    | Crash
    | Command(text: Option<CString>)          // the main system leaves a command file

  ghost predicate Next(s: State, s': State, t: Step)
  {
    match t
    case Boot(given, readOk) =>
      s.phase.Off? && s' == s.(phase := Loaded(given, if readOk then Some(s.field) else None))
    case Choose =>
      s.phase.Loaded? &&
      var r := ChooseArgs(s.phase.given, if s.phase.read.Some? then s.phase.read.value else [], s.file);
      s' == s.(phase := if r.Some? then Chosen(r.value) else Off)
    case WriteBcb(o) =>
      s.phase.Chosen? &&
      s' == Written(s, o, Image(s.phase.args), Some(s.phase.args)).(phase := Working(s.phase.args))
    case Wipe => s.phase.Working? && s' == s.(file := None)
    case ClearBcb(o) => s.phase.Working? && s' == Written(s, o, [], None).(phase := Finishing)
    case Unlink(ok) => s.phase.Finishing? && s' == s.(file := if ok then None else s.file, phase := Finished)
    case Crash => s' == s.(phase := Off)
    case Command(text) => s.phase.Off? && s' == s.(file := text)
  }

  ghost predicate IsRun(tr: seq<State>, steps: seq<Step>)
  {
    |tr| == |steps| + 1 && tr[0].phase.Off? && tr[0].armed.None? &&
    forall i :: 0 <= i < |steps| ==> Next(tr[i], tr[i + 1], steps[i])
  }

  /** The control block holds what was last written, and a run that has read it knows it. */
  ghost predicate Inv(s: State)
  {
    (s.armed.Some? ==> s.field == Image(s.armed.value)) &&
    (s.phase.Loaded? && s.phase.read.Some? ==> s.phase.read.value == s.field)
  }

  lemma InvNext(s: State, s': State, t: Step)
    requires Inv(s) && Next(s, s', t)
    ensures Inv(s')
  {
    hide ChooseArgs, Image;
  }

  lemma {:induction false} InvAlways(tr: seq<State>, steps: seq<Step>, i: nat)
    requires IsRun(tr, steps) && i < |tr|
    ensures Inv(tr[i])
  {
    hide Next, Inv;
    if i == 0 {
      assert Inv(tr[0]) by { InvFirst(tr[0]); }
    } else {
      InvAlways(tr, steps, i - 1);
      assert Next(tr[i - 1], tr[i - 1 + 1], steps[i - 1]);
      InvNext(tr[i - 1], tr[i], steps[i - 1]);
    }
  }

  lemma InvFirst(s: State)
    requires s.phase.Off? && s.armed.None?
    ensures Inv(s)
  {
  }

  /** Every run in progress works with v, and so does the control block. */
  ghost predicate Bound(s: State, v: seq<CString>)
  {
    s.armed == Some(v) && (s.phase.Chosen? || s.phase.Working? ==> s.phase.args == v)
  }

  /** A run started without arguments that could read the control block; anything goes in the other phases. */
  ghost predicate Plain(s: State)
  {
    s.armed.Some? && (s.phase.Loaded? ==> s.phase.given == [] && s.phase.read.Some?)
  }

  /** A stable vector in the control block is what a run without arguments chooses, whatever has become of the command
      file. */
  lemma ChoosesArmed(v: seq<CString>, file: Option<CString>)
    requires Stable(v) && v != []
    ensures ChooseArgs([], Image(v), file) == Some(v)
  {
    hide Stable, Image, ReadArgs;
    ReadBack(v);
  }

  lemma BoundNext(s: State, s': State, t: Step, v: seq<CString>)
    requires Inv(s) && Next(s, s', t) && Bound(s, v) && Plain(s) && Plain(s') && Stable(v) && v != []
    ensures Bound(s', v)
  {
    hide ChooseArgs, Image, Stable;
    ChoosesArmed(v, s.file);
  }

  /** Once a run has written its arguments, every later run without arguments has the same ones, as long as the control
      block is not cleared; crashes, wipes and new command files in between do not matter. */
  lemma {:induction false} Restartable(tr: seq<State>, steps: seq<Step>, i: nat, j: nat, v: seq<CString>)
    requires IsRun(tr, steps) && i <= j < |tr| && tr[i].phase == Working(v) && tr[i].armed == Some(v)
    requires Stable(v) && v != [] && forall k :: i <= k <= j ==> Plain(tr[k])
    ensures Bound(tr[j], v) && tr[j].field == Image(v)
    decreases j
  {
    hide Next, Inv, Stable, Image;
    if j > i {
      Restartable(tr, steps, i, j - 1, v);
      InvAlways(tr, steps, j - 1);
      assert Next(tr[j - 1], tr[j - 1 + 1], steps[j - 1]);
      BoundNext(tr[j - 1], tr[j], steps[j - 1], v);
    }
    InvAlways(tr, steps, j);
    FieldArmed(tr[j]);
  }

  lemma FieldArmed(s: State)
    requires Inv(s) && s.armed.Some?
    ensures s.field == Image(s.armed.value)
  {
    hide Image;
  }

  /** After the command file is gone, exactly the stable vectors survive a restart. */
  lemma SurvivesExactly(v: seq<CString>)
    requires v != []
    ensures ChooseArgs([], Image(v), None) == Some(v) <==> Stable(v)
  {
    hide Stable, Image, ReadArgs;
    ReadBack(v);
  }

  /** For a vector that a run has read from the control block nothing need be known: once written back, it is what every
      later run without arguments works with. */
  lemma RestartableRead(tr: seq<State>, steps: seq<Step>, h: nat, i: nat, j: nat, v: seq<CString>)
    requires IsRun(tr, steps) && h <= i <= j < |tr| && v != []
    requires tr[h].phase.Loaded? && tr[h].phase.read.Some? && ReadArgs(tr[h].phase.read.value) == Some(v)
    requires tr[i].phase == Working(v) && tr[i].armed == Some(v) && forall k :: i <= k <= j ==> Plain(tr[k])
    ensures Bound(tr[j], v) && tr[j].field == Image(v)
  {
    hide Next, Stable, Image, ReadArgs;
    ReadWriteRead(tr[h].phase.read.value, v);
    Restartable(tr, steps, i, j, v);
  }

  // ---- after the control block has been cleared ----

  /** Step t does not write to the control block. */
  predicate Leaves(t: Step) { (t.WriteBcb? || t.ClearBcb?) ==> t.o.Refused? }

  ghost predicate Empty(s: State)
  {
    s.field == [] && s.armed.None? && (s.phase.Loaded? && s.phase.read.Some? ==> s.phase.read.value == [])
  }

  lemma {:induction false} StaysEmpty(tr: seq<State>, steps: seq<Step>, i: nat, j: nat)
    requires IsRun(tr, steps) && i < j < |tr| && steps[i] == ClearBcb(Done) &&
      forall k :: i < k < j ==> Leaves(steps[k])
    ensures Empty(tr[j])
    decreases j
  {
    assert Next(tr[j - 1], tr[j - 1 + 1], steps[j - 1]);
    if j > i + 1 { StaysEmpty(tr, steps, i, j - 1); }
  }

  /** From the clearing of the control block to the next write, a run without arguments takes them from the command
      file, and has none if there is no such file. */
  lemma ClearedForgets(tr: seq<State>, steps: seq<Step>, i: nat, j: nat)
    requires IsRun(tr, steps) && i < j < |steps| && steps[i] == ClearBcb(Done) &&
      forall k :: i < k < j ==> Leaves(steps[k])
    requires steps[j] == Choose && tr[j].phase.Loaded? && tr[j].phase.given == []
    ensures tr[j].file.None? ==> tr[j + 1].phase == Chosen([])
    ensures tr[j].file.Some? ==>
      var a := FileArgs(tr[j].file.value, MAX_ARGS - 1);
      tr[j + 1].phase == if a.Some? then Chosen(a.value) else Off
  {
    hide FileArgs;
    StaysEmpty(tr, steps, i, j);
    assert Next(tr[j], tr[j + 1], steps[j]);
  }
}
