/** The text of the recovery field of the bootloader control block, as get_args in main.c
    writes and reads it: one argument per line after a line "recovery". */
module BcbText {
  import opened Bits

  const NEWLINE: byte := 10
  const RECOVERY: CString := [114, 101, 99, 111, 118, 101, 114, 121]
  const ROOM: nat := 1024        // sizeof(boot.recovery)
  const MAX_ARGS: nat := 100

  // ---- strtok ----

  /** Index of the first byte of s from i on that is (or is not) a newline. */
  function FindNewline(s: seq<byte>, i: nat): (k: nat)
    requires i <= |s|
    ensures i <= k <= |s| && (k < |s| ==> s[k] == NEWLINE) && forall j :: i <= j < k ==> s[j] != NEWLINE
    decreases |s| - i
  {
    if i == |s| || s[i] == NEWLINE then i else FindNewline(s, i + 1)
  }

  function SkipNewlines(s: seq<byte>, i: nat): (k: nat)
    requires i <= |s|
    ensures i <= k <= |s| && (k < |s| ==> s[k] != NEWLINE) && forall j :: i <= j < k ==> s[j] == NEWLINE
    decreases |s| - i
  {
    if i == |s| || s[i] != NEWLINE then i else SkipNewlines(s, i + 1)
  }

  /** The lines of s from i on that are not empty: what strtok(…, "\n") delivers. */
  function Lines(s: CString, i: nat): (r: seq<CString>)
    requires i <= |s|
    ensures forall j :: 0 <= j < |r| ==> r[j] != [] && NEWLINE !in r[j]
    decreases |s| - i
  {
    var a := SkipNewlines(s, i);
    if a == |s| then [] else
    var b := FindNewline(s, a);
    [s[a..b]] + Lines(s, b)
  }

  /** All lines with a newline after each. */
  function Joined(ls: seq<CString>): (s: CString)
    decreases |ls|
  {
    if ls == [] then [] else ls[0] + [NEWLINE] + Joined(ls[1..])
  }

  predicate IsLine(l: CString) { l != [] && NEWLINE !in l }

  lemma FirstLine(l: CString, rest: CString, s: CString)
    requires IsLine(l) && s == l + [NEWLINE] + rest
    ensures SkipNewlines(s, 0) == 0 && FindNewline(s, 0) == |l| && s[0..|l|] == l
  {
    assert s[|l|] == NEWLINE && forall j :: 0 <= j < |l| ==> s[j] == l[j] && l[j] in l;
    var k := FindNewline(s, 0);
    assert k <= |l| && k >= |l|;
  }

  /** One line and the lines after it. */
  lemma LinesIs(s: CString, i: nat)
    requires i <= |s|
    ensures var a := SkipNewlines(s, i);
            Lines(s, i) == if a == |s| then [] else [s[a..FindNewline(s, a)]] + Lines(s, FindNewline(s, a))
  {
    hide SkipNewlines, FindNewline;
  }

  /** Skipping a newline changes nothing. */
  lemma LinesSkip(s: CString, i: nat)
    requires i < |s| && s[i] == NEWLINE
    ensures Lines(s, i) == Lines(s, i + 1)
  {
  }

  lemma {:induction false} SkipShift(p: CString, s: CString, t: CString, i: nat)
    requires t == p + s && i <= |s|
    ensures SkipNewlines(t, |p| + i) == |p| + SkipNewlines(s, i)
    decreases |s| - i
  {
    if i < |s| { SkipShift(p, s, t, i + 1); }
  }

  lemma {:induction false} FindShift(p: CString, s: CString, t: CString, i: nat)
    requires t == p + s && i <= |s|
    ensures FindNewline(t, |p| + i) == |p| + FindNewline(s, i)
    decreases |s| - i
  {
    if i < |s| { FindShift(p, s, t, i + 1); }
  }

  lemma SliceShift(p: CString, s: CString, t: CString, a: nat, b: nat)
    requires t == p + s && a <= b <= |s|
    ensures t[|p| + a..|p| + b] == s[a..b]
  {
    assert t[|p|..] == s;
    assert t[|p| + a..|p| + b] == t[|p|..][a..b];
  }

  /** The lines of a string do not depend on what precedes them. */
  lemma {:induction false} LinesShift(p: CString, s: CString, t: CString, i: nat)
    requires t == p + s && i <= |s|
    ensures Lines(t, |p| + i) == Lines(s, i)
    decreases |s| - i
  {
    hide SkipNewlines, FindNewline, Lines;
    SkipShift(p, s, t, i);
    LinesIs(s, i);
    LinesIs(t, |p| + i);
    var a := SkipNewlines(s, i);
    if a < |s| {
      FindShift(p, s, t, a);
      var b := FindNewline(s, a);
      LaterNewline(s, a);
      SliceShift(p, s, t, a, b);
      LinesShift(p, s, t, b);
    }
  }

  lemma LaterNewline(s: CString, a: nat)
    requires a < |s| && s[a] != NEWLINE
    ensures FindNewline(s, a) > a
  {
  }

  /** Reading lines back: the last newline may be missing. */
  lemma {:induction false} LinesOfJoined(ls: seq<CString>, s: CString)
    requires (forall i :: 0 <= i < |ls| ==> IsLine(ls[i])) &&
      (s == Joined(ls) || (ls != [] && s + [NEWLINE] == Joined(ls)))
    ensures Lines(s, 0) == ls
    decreases |ls|
  {
    hide SkipNewlines, FindNewline, Lines, Joined;
    if ls == [] {
      NoLines(s);
    } else if s != Joined(ls) && |ls| == 1 {
      LastLine(ls, s);
      OneLine(ls[0]);
    } else {
      LineSplit(ls, s);
      var l, tail: CString := ls[0], s[|ls[0]| + 1..];
      FirstLine(l, tail, s);
      LinesIs(s, 0);
      LinesSkip(s, |l|);
      assert s == (l + [NEWLINE]) + tail;
      LinesShift(l + [NEWLINE], tail, s, 0);
      LinesOfJoined(ls[1..], tail);
    }
  }

  lemma NoLines(s: CString)
    requires s == Joined([])
    ensures Lines(s, 0) == []
  {
  }

  lemma LastLine(ls: seq<CString>, s: CString)
    requires |ls| == 1 && s + [NEWLINE] == Joined(ls)
    ensures s == ls[0]
  {
    assert ls[1..] == [];
    assert (s + [NEWLINE])[..|s|] == s && (ls[0] + [NEWLINE] + [])[..|ls[0]|] == ls[0];
  }

  lemma OneLine(l: CString)
    requires IsLine(l)
    ensures Lines(l, 0) == [l]
  {
    assert forall j :: 0 <= j < |l| ==> l[j] in l;
    assert l[0..|l|] == l;
  }

  lemma LineSplit(ls: seq<CString>, s: CString)
    requires ls != [] && (s == Joined(ls) || (|ls| > 1 && s + [NEWLINE] == Joined(ls)))
    ensures var l := ls[0];
            |s| >= |l| + 1 && s == l + [NEWLINE] + s[|l| + 1..] &&
            (s == Joined(ls) ==> s[|l| + 1..] == Joined(ls[1..])) &&
            (s != Joined(ls) ==> ls[1..] != [] && s[|l| + 1..] + [NEWLINE] == Joined(ls[1..]))
  {
    var j, l, n := Joined(ls), ls[0], |ls[0]| + 1;
    assert j == (l + [NEWLINE]) + Joined(ls[1..]);
    assert j[n..] == Joined(ls[1..]) && j[..n] == l + [NEWLINE];
    if s != j {
      assert |Joined(ls[1..])| >= 1;
      assert j[..|s|] == s && j[|s|..] == [NEWLINE];
      assert s[..n] == j[..n] && s[n..] == j[n..|s|];
      assert j[n..] == j[n..|s|] + j[|s|..];
    }
    assert s == s[..n] + s[n..];
  }

  // ---- what the field can hold ----

  /** As much as fits into the field with its terminator. */
  function Cut(s: CString): (r: CString)
    ensures |r| < ROOM
  {
    if |s| < ROOM then s else s[..ROOM - 1]
  }

  lemma CutTwice(a: CString, b: CString)
    ensures Cut(Cut(a) + b) == Cut(a + b)
  {
    if |a| >= ROOM { assert (a[..ROOM - 1] + b)[..ROOM - 1] == (a + b)[..ROOM - 1]; }
  }

  /** The field that get_args writes for a vector of arguments. */
  function Image(args: seq<CString>): (s: CString)
  {
    Cut(Joined([RECOVERY] + args))
  }

  /** The arguments that get_args finds in a field; none if it does not start with "recovery". */
  function ReadArgs(s: CString): (r: Option<seq<CString>>)
  {
    var ls := Lines(Cut(s), 0);
    if ls == [] || ls[0] != RECOVERY then None
    else Some(if |ls| > MAX_ARGS then ls[1..MAX_ARGS] else ls[1..])
  }

  /** Arguments that survive: lines, not too many, and no longer than the field with all newlines but the last. */
  predicate Stable(args: seq<CString>)
  {
    (forall i :: 0 <= i < |args| ==> IsLine(args[i])) && |args| < MAX_ARGS && |Joined([RECOVERY] + args)| <= ROOM
  }

  lemma {:induction false} LinesSize(s: CString, i: nat)
    requires i <= |s|
    ensures |Joined(Lines(s, i))| <= |s| - i + 1
    decreases |s| - i
  {
    hide SkipNewlines, FindNewline, Lines;
    LinesIs(s, i);
    var a := SkipNewlines(s, i);
    if a < |s| {
      LaterNewline(s, a);
      var b := FindNewline(s, a);
      var ls := Lines(s, i);
      assert ls[1..] == Lines(s, b);
      if b < |s| {
        LinesSkip(s, b);
        LinesSize(s, b + 1);
      } else {
        NoMore(s, b);
      }
    }
  }

  lemma NoMore(s: CString, b: nat)
    requires b == |s|
    ensures Lines(s, b) == []
  {
  }

  lemma {:induction false} JoinedPrefix(a: seq<CString>, b: seq<CString>)
    requires a <= b
    ensures |Joined(a)| <= |Joined(b)| && (a < b ==> |Joined(a)| < |Joined(b)|)
    decreases |a|
  {
    if a != [] {
      assert a[0] == b[0];
      assert a[1..] <= b[1..];
      JoinedPrefix(a[1..], b[1..]);
    }
  }

  /** The arguments found are lines of the field, after the first. */
  lemma FoundLines(s: CString, args: seq<CString>)
    requires ReadArgs(s) == Some(args)
    ensures var ls := Lines(Cut(s), 0); [RECOVERY] + args <= ls && (|ls| <= MAX_ARGS ==> [RECOVERY] + args == ls)
    ensures |args| < MAX_ARGS
  {
    hide Lines;
    var ls := Lines(Cut(s), 0);
    var n := |args| + 1;
    assert ls[..n] == [ls[0]] + ls[1..n];
    assert ls[..n] == [RECOVERY] + args;
  }

  /** Whatever the field holds, the arguments found in it are stable. */
  lemma ReadStable(s: CString, args: seq<CString>)
    requires ReadArgs(s) == Some(args)
    ensures Stable(args)
  {
    hide Lines, Joined;
    var ls := Lines(Cut(s), 0);
    FoundLines(s, args);
    JoinedPrefix([RECOVERY] + args, ls);
    LinesSize(Cut(s), 0);
    assert forall i :: 0 <= i < |args| ==> args[i] == ls[i + 1];
  }

  /** Writing and reading the field gives the same arguments exactly if they are stable. */
  lemma ReadBack(args: seq<CString>)
    ensures ReadArgs(Image(args)) == Some(args) <==> Stable(args)
  {
    hide ReadArgs, Image, Stable;
    if Stable(args) { StableReads(args); }
    if ReadArgs(Image(args)) == Some(args) { ReadStable(Image(args), args); }
  }

  lemma StableReads(args: seq<CString>)
    requires Stable(args)
    ensures ReadArgs(Image(args)) == Some(args)
  {
    hide Lines, Joined;
    var all, s := [RECOVERY] + args, Image(args);
    var full := Joined(all);
    EndsWithNewline(all);
    assert |full| == ROOM ==> full == full[..ROOM - 1] + [NEWLINE];
    assert IsLine(RECOVERY);
    LinesOfJoined(all, s);
    assert all[1..] == args;
  }

  lemma {:induction false} EndsWithNewline(ls: seq<CString>)
    requires ls != []
    ensures |Joined(ls)| >= 1 && Joined(ls)[|Joined(ls)| - 1] == NEWLINE
    decreases |ls|
  {
    if |ls| > 1 { EndsWithNewline(ls[1..]); }
  }

  /** Reading is a fixpoint for every field, whoever wrote it: the vector found there is found again after writing it
      back. */
  lemma ReadWriteRead(s: CString, args: seq<CString>)
    requires ReadArgs(s) == Some(args)
    ensures Stable(args) && ReadArgs(Image(args)) == Some(args)
  {
    hide ReadArgs, Image, Stable;
    ReadStable(s, args);
    ReadBack(args);
  }

  // ---- when writing back leaves the field as it is ----

  /** From i on, a line that ends at j is empty. */
  predicate BlankAt(s: CString, i: nat, j: nat)
  {
    i <= j < |s| && s[j] == NEWLINE && (j == i || s[j - 1] == NEWLINE)
  }

  ghost predicate NoBlank(s: CString, i: nat)
  {
    forall j: nat :: !BlankAt(s, i, j)
  }

  /** 1 if the last line lacks its newline. */
  function Open(s: CString, i: nat): (n: nat)
  {
    if i < |s| && s[|s| - 1] != NEWLINE then 1 else 0
  }

  /** Without blank lines, joining the lines gives the string back, with the last newline if it was missing. */
  lemma {:induction false} JoinLines(s: CString, i: nat)
    requires i <= |s| && NoBlank(s, i)
    ensures Joined(Lines(s, i)) == s[i..] + if Open(s, i) == 1 then [NEWLINE] else []
    decreases |s| - i
  {
    hide SkipNewlines, FindNewline, Lines;
    LinesIs(s, i);
    if i == |s| {
      NoMore(s, i);
    } else {
      assert !BlankAt(s, i, i);
      StartsLine(s, i);
      var b := FindNewline(s, i);
      var ls := Lines(s, i);
      assert ls[1..] == Lines(s, b);
      if b == |s| {
        NoMore(s, b);
        assert s[i..b] == s[i..];
      } else {
        var next: nat := b + 1;
        forall j: nat ensures !BlankAt(s, next, j) { assert !BlankAt(s, i, j); }
        LinesSkip(s, b);
        JoinLines(s, next);
        assert s[i..] == s[i..b] + [NEWLINE] + s[b + 1..];
      }
    }
  }

  lemma StartsLine(s: CString, i: nat)
    requires i < |s| && s[i] != NEWLINE
    ensures SkipNewlines(s, i) == i && FindNewline(s, i) > i
  {
  }

  /** Joining the lines never makes a string longer, but for the last newline, and shorter if there is a blank line. */
  lemma {:induction false} JoinShorter(s: CString, i: nat)
    requires i <= |s|
    ensures |Joined(Lines(s, i))| <= |s| - i + Open(s, i) &&
      (!NoBlank(s, i) ==> |Joined(Lines(s, i))| < |s| - i + Open(s, i))
    decreases |s| - i
  {
    hide SkipNewlines, FindNewline, Lines;
    if i == |s| {
      NoMore(s, i);
    } else if s[i] == NEWLINE {
      LinesSkip(s, i);
      JoinShorter(s, i + 1);
    } else {
      StartsLine(s, i);
      LinesIs(s, i);
      var b := FindNewline(s, i);
      var ls := Lines(s, i);
      assert ls[1..] == Lines(s, b);
      if b == |s| {
        NoMore(s, b);
      } else {
        LinesSkip(s, b);
        JoinShorter(s, b + 1);
        if !NoBlank(s, i) {
          var j: nat :| BlankAt(s, i, j);
          assert BlankAt(s, b + 1, j);
        }
      }
    }
  }

  lemma ImageStart(args: seq<CString>)
    ensures var f := Image(args); Lines(f, 0) != [] && Lines(f, 0)[0] == RECOVERY && f != []
    ensures Open(Image(args), 0) == 1 ==> |Image(args)| == ROOM - 1
  {
    hide Lines, SkipNewlines, FindNewline;
    var all, f := [RECOVERY] + args, Image(args);
    EndsWithNewline(all);
    assert all[1..] == args;
    assert Joined(all) == RECOVERY + [NEWLINE] + Joined(args);
    var rest: CString := f[|RECOVERY| + 1..];
    assert f == RECOVERY + [NEWLINE] + rest;
    FirstLine(RECOVERY, rest, f);
    LinesIs(f, 0);
  }

  /** Reading the field and writing it back leaves it as it is exactly if it has no blank line and not too many
      lines. */
  lemma FieldFixpoint(args: seq<CString>)
    ensures var f := Image(args);
            ReadArgs(f).Some? &&
            (Image(ReadArgs(f).value) == f <==> NoBlank(f, 0) && |Lines(f, 0)| <= MAX_ARGS)
  {
    hide Lines, Joined, NoBlank;
    var f := Image(args);
    var ls := Lines(f, 0);
    ImageStart(args);
    assert Cut(f) == f;
    var a := ReadArgs(f).value;
    var back := [RECOVERY] + a;
    FoundLines(f, a);
    JoinedPrefix(back, ls);
    JoinShorter(f, 0);
    EndsWithNewline(back);
    if NoBlank(f, 0) && |ls| <= MAX_ARGS {
      assert back == ls;
      JoinLines(f, 0);
      assert f[0..] == f;
      assert Open(f, 0) == 1 ==> (f + [NEWLINE])[..ROOM - 1] == f;
    } else {
      assert |Joined(back)| < |f| + Open(f, 0);
    }
  }

  /** A single argument can be one byte too long. */
  lemma TooLong(arg: CString)
    requires IsLine(arg) && |arg| == ROOM - 9
    ensures !Stable([arg]) && ReadArgs(Image([arg])) != Some([arg])
  {
    hide ReadArgs, Image;
    ReadBack([arg]);
    assert [RECOVERY] + [arg] == [RECOVERY, arg];
    assert Joined([RECOVERY, arg]) == RECOVERY + [NEWLINE] + Joined([arg]) && Joined([arg]) == arg + [NEWLINE] + [];
  }
}
