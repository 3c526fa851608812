/** get_args of main.c, on the recovery field of the bootloader control block in memory. */
module BcbArgs {
  import opened Bits
  import opened BcbText

  // ---- C strings in a field ----

  /** The length of the string that starts at i in s; |s| - i if there is no terminator. */
  function Len(s: seq<byte>, i: nat): (n: nat)
    requires i <= |s|
    ensures i + n <= |s| && (forall j :: i <= j < i + n ==> s[j] != 0) && (i + n < |s| ==> s[i + n] == 0)
    decreases |s| - i
  {
    if i == |s| || s[i] == 0 then 0 else 1 + Len(s, i + 1)
  }

  /** The C string in a field. */
  function Text(s: seq<byte>): (t: CString)
    ensures t <= s
  {
    var t := s[..Len(s, 0)];
    assert forall j :: 0 <= j < |t| ==> t[j] == s[j];
    t
  }

  lemma TextIs(s: seq<byte>, n: nat)
    requires n < |s| && s[n] == 0 && forall j :: 0 <= j < n ==> s[j] != 0
    ensures Text(s) == s[..n] && Len(s, 0) == n
  {
    var k := Len(s, 0);
    assert k <= n && k >= n;
  }

  // ---- strtok on the field ----

  /** From pos on, the field still holds s and its terminator. */
  ghost predicate Holds(rec: seq<byte>, pos: nat, s: CString)
  {
    pos <= |s| < |rec| && rec[|s|] == 0 && forall i :: pos <= i < |s| ==> rec[i] == s[i] != 0
  }

  /** One call of strtok with "\n", from pos on: the next line and where to go on; the newline after it is
      overwritten. */
  method NextLine(rec: array<byte>, pos: nat, ghost s: CString) returns (line: Option<CString>, next: nat)
    requires Holds(rec[..], pos, s)
    modifies rec
    ensures pos <= next && Holds(rec[..], next, s)
    ensures line.None? ==> Lines(s, pos) == []
    ensures line.Some? ==> next > pos && Lines(s, pos) == [line.value] + Lines(s, next)
  {
    hide Lines, SkipNewlines, FindNewline;
    LinesIs(s, pos);
    var a := SkipBlank(rec, pos, s);
    if rec[a] == 0 { return None, a; }
    LaterNewline(s, a);
    var b := LineEnd(rec, a, s);
    SameSlice(rec[..], s, a, b);
    line := Some(rec[a..b]);
    next := b;
    if rec[b] == NEWLINE {
      rec[b] := 0;
      next := b + 1;
      LinesSkip(s, b);
    }
  }

  lemma SameSlice(rec: seq<byte>, s: CString, a: nat, b: nat)
    requires a <= b <= |s| && Holds(rec, a, s)
    ensures rec[a..b] == s[a..b] && 0 !in rec[a..b]
  {
  }

  method SkipBlank(rec: array<byte>, pos: nat, ghost s: CString) returns (a: nat)
    requires Holds(rec[..], pos, s)
    ensures a == SkipNewlines(s, pos) && (rec[a] == 0 <==> a == |s|)
  {
    a := pos;
    while rec[a] == NEWLINE
      invariant pos <= a <= |s| && forall i :: pos <= i < a ==> s[i] == NEWLINE
      decreases |s| - a
    {
      a := a + 1;
    }
    SkipIs(s, pos, a);
  }

  method LineEnd(rec: array<byte>, a: nat, ghost s: CString) returns (b: nat)
    requires Holds(rec[..], a, s)
    ensures b == FindNewline(s, a)
  {
    b := a;
    while rec[b] != 0 && rec[b] != NEWLINE
      invariant a <= b <= |s| && forall i :: a <= i < b ==> s[i] != NEWLINE
      decreases |s| - b
    {
      b := b + 1;
    }
    FindIs(s, a, b);
  }

  lemma SkipIs(s: CString, i: nat, a: nat)
    requires i <= a <= |s| && (forall j :: i <= j < a ==> s[j] == NEWLINE) && (a < |s| ==> s[a] != NEWLINE)
    ensures SkipNewlines(s, i) == a
  {
  }

  lemma FindIs(s: CString, i: nat, b: nat)
    requires i <= b <= |s| && (forall j :: i <= j < b ==> s[j] != NEWLINE) && (b < |s| ==> s[b] == NEWLINE)
    ensures FindNewline(s, i) == b
  {
  }

  /** Terminating the field keeps as much of its text as can be kept. */
  lemma Terminated(rec: seq<byte>)
    requires |rec| == ROOM
    ensures Text(rec[ROOM - 1 := 0]) == Cut(Text(rec)) && Holds(rec[ROOM - 1 := 0], 0, Cut(Text(rec)))
  {
    var n := Len(rec, 0);
    var m := if n < ROOM - 1 then n else ROOM - 1;
    TextIs(rec[ROOM - 1 := 0], m);
    assert rec[ROOM - 1 := 0][..m] == rec[..m] == Text(rec)[..m];
  }

  /** The arguments in the field; its newlines are overwritten on the way. */
  method ReadField(rec: array<byte>) returns (r: Option<seq<CString>>)
    requires rec.Length == ROOM
    modifies rec
    ensures r == ReadArgs(Text(old(rec[..])))
  {
    hide Lines, Len, Holds, Text;
    ghost var s := Cut(Text(rec[..]));
    Terminated(rec[..]);
    rec[ROOM - 1] := 0;
    assert rec[..] == old(rec[..])[ROOM - 1 := 0];
    var line, pos := NextLine(rec, 0, s);
    if line.None? || line.value != RECOVERY { return None; }
    var args: seq<CString> := [];
    Bounds(rec[..], pos, s);
    ghost var rest := Lines(s, pos);
    assert [RECOVERY] + args + rest == [RECOVERY] + rest;
    while |args| + 1 < MAX_ARGS
      invariant |args| < MAX_ARGS && Holds(rec[..], pos, s) && pos <= |s| && Lines(s, 0) == [RECOVERY] + args + rest &&
        rest == Lines(s, pos)
      decreases MAX_ARGS - |args|
    {
      line, pos := NextLine(rec, pos, s);
      Bounds(rec[..], pos, s);
      if line.None? { break; }
      rest := Lines(s, pos);
      assert [RECOVERY] + args + ([line.value] + rest) == [RECOVERY] + (args + [line.value]) + rest;
      args := args + [line.value];
    }
    Taken(s, args, rest);
    return Some(args);
  }

  lemma Bounds(rec: seq<byte>, pos: nat, s: CString)
    requires Holds(rec, pos, s)
    ensures pos <= |s|
  {
  }

  lemma Taken(s: CString, args: seq<CString>, rest: seq<CString>)
    requires Lines(s, 0) == [RECOVERY] + args + rest && |args| < MAX_ARGS && (rest == [] || |args| + 1 == MAX_ARGS) &&
      |s| < ROOM
    ensures ReadArgs(s) == Some(args)
  {
    hide Lines;
    assert Cut(s) == s;
    var ls := Lines(s, 0);
    assert ls == [RECOVERY] + (args + rest);
    assert ls[0] == RECOVERY && ls[1..] == args + rest;
    assert ls[1..|args| + 1] == args;
    assert rest == [] ==> args + rest == args;
  }

  // ---- strlcpy and strlcat ----

  /** Put as much of src as fits at index n, where the text ends, and a terminator after it. */
  method PutAt(rec: array<byte>, n: nat, src: CString)
    requires rec.Length == ROOM && n < ROOM && forall j :: 0 <= j < n ==> rec[j] != 0
    modifies rec
    ensures Text(rec[..]) == Cut(old(rec[..n]) + src) && Len(rec[..], 0) < ROOM
  {
    hide Len;
    ghost var before := rec[..n];
    var i := 0;
    while i < |src| && n + i < ROOM - 1
      invariant 0 <= i <= |src| && n + i < ROOM
      invariant rec[..n + i] == before + src[..i]
    {
      rec[n + i] := src[i];
      assert rec[..n + i + 1] == rec[..n + i] + [src[i]];
      assert src[..i + 1] == src[..i] + [src[i]];
      i := i + 1;
    }
    rec[n + i] := 0;
    NonZero(before, src[..i], rec[..][..n + i]);
    TextIs(rec[..], n + i);
    assert rec[..][..n + i] == before + src[..i];
    if i < |src| {
      assert (before + src)[..ROOM - 1] == before + src[..i];
    } else {
      assert src[..i] == src;
    }
  }

  lemma NonZero(a: seq<byte>, b: CString, s: seq<byte>)
    requires s == a + b && forall j :: 0 <= j < |a| ==> a[j] != 0
    ensures forall j :: 0 <= j < |s| ==> s[j] != 0
  {
    forall j | 0 <= j < |s| ensures s[j] != 0 {
      if j >= |a| { assert s[j] == b[j - |a|] && b[j - |a|] in b; }
    }
  }

  method StrLCpy(rec: array<byte>, src: CString)
    requires rec.Length == ROOM
    modifies rec
    ensures Text(rec[..]) == Cut(src) && Len(rec[..], 0) < ROOM
  {
    hide Text, Len, Cut;
    PutAt(rec, 0, src);
    assert [] + src == src;
  }

  method StrLCat(rec: array<byte>, src: CString)
    requires rec.Length == ROOM && Len(rec[..], 0) < ROOM
    modifies rec
    ensures Text(rec[..]) == Cut(old(Text(rec[..])) + src) && Len(rec[..], 0) < ROOM
  {
    hide Cut;
    var n := 0;
    while rec[n] != 0
      invariant 0 <= n <= Len(rec[..], 0)
      decreases ROOM - n
    {
      n := n + 1;
    }
    TextIs(rec[..], n);
    PutAt(rec, n, src);
  }

  lemma {:induction false} JoinedPush(ls: seq<CString>, l: CString)
    ensures Joined(ls + [l]) == Joined(ls) + l + [NEWLINE]
    decreases |ls|
  {
    if ls == [] {
      assert [l][1..] == [];
      assert [] + l + [NEWLINE] == l + [NEWLINE] + [];
    } else {
      assert (ls + [l])[1..] == ls[1..] + [l];
      JoinedPush(ls[1..], l);
    }
  }

  /** The end of get_args: the field for the arguments. */
  method WriteField(rec: array<byte>, args: seq<CString>)
    requires rec.Length == ROOM
    modifies rec
    ensures Text(rec[..]) == Image(args)
  {
    hide Text, Len, Cut, Joined;
    StrLCpy(rec, RECOVERY + [NEWLINE]);
    Header();
    assert [RECOVERY] + args[..0] == [RECOVERY];
    var i := 0;
    while i < |args|
      invariant 0 <= i <= |args| && Len(rec[..], 0) < ROOM
      invariant Text(rec[..]) == Cut(Joined([RECOVERY] + args[..i]))
    {
      ghost var done := [RECOVERY] + args[..i];
      StrLCat(rec, args[i]);
      StrLCat(rec, [NEWLINE]);
      CutTwice(Joined(done), args[i]);
      CutTwice(Joined(done) + args[i], [NEWLINE]);
      JoinedPush(done, args[i]);
      assert [RECOVERY] + args[..i + 1] == done + [args[i]];
      i := i + 1;
    }
    assert args[..i] == args;
  }

  lemma Header()
    ensures Joined([RECOVERY]) == RECOVERY + [NEWLINE]
  {
    assert [RECOVERY][1..] == [];
    assert RECOVERY + [NEWLINE] + [] == RECOVERY + [NEWLINE];
  }

  // ---- the command file ----

  const MAX_ARG_LENGTH: nat := 4096
  const RETURN: byte := 13

  /** What one fgets delivers: up to a newline, at most 4095 bytes. */
  function Chunk(s: CString): (n: nat)
    requires s != []
    ensures 1 <= n <= |s| && n < MAX_ARG_LENGTH
  {
    var k := FindNewline(s, 0);
    var n := if k < |s| then k + 1 else k;
    if n < MAX_ARG_LENGTH then n else MAX_ARG_LENGTH - 1
  }

  /** The first token of a chunk, without line ends; empty if there is none. */
  function Token(s: CString): (t: CString)
  {
    if s == [] then []
    else if s[0] == NEWLINE || s[0] == RETURN then Token(s[1..])
    else TokenPart(s)
  }

  function TokenPart(s: CString): (t: CString)
    ensures t <= s
  {
    if s == [] || s[0] == NEWLINE || s[0] == RETURN then [] else [s[0]] + TokenPart(s[1..])
  }

  /** The arguments in the command file, at most n; none if there is a line without text. */
  function FileArgs(s: CString, n: nat): (r: Option<seq<CString>>)
    decreases n
  {
    if s == [] || n == 0 then Some([]) else
    var t := Token(s[..Chunk(s)]);
    if t == [] then None else
    var more :- FileArgs(s[Chunk(s)..], n - 1);
    Some([t] + more)
  }

  /** fgets: the number of bytes it takes from position pos on. */
  method ReadLine(text: CString, pos: nat) returns (n: nat)
    requires pos < |text|
    ensures n == Chunk(text[pos..])
  {
    hide FindNewline;
    ghost var s: CString := text[pos..];
    n := 0;
    while n < MAX_ARG_LENGTH - 1 && pos + n < |text| && (n == 0 || text[pos + n - 1] != NEWLINE)
      invariant 0 <= n < MAX_ARG_LENGTH && pos + n <= |text|
      invariant forall j :: 0 <= j < n - 1 ==> s[j] != NEWLINE
    {
      n := n + 1;
    }
    ChunkIs(s, n);
  }

  lemma ChunkIs(s: CString, n: nat)
    requires 1 <= n <= |s| && n < MAX_ARG_LENGTH && (forall j :: 0 <= j < n - 1 ==> s[j] != NEWLINE)
    requires n == MAX_ARG_LENGTH - 1 || n == |s| || s[n - 1] == NEWLINE
    ensures Chunk(s) == n
  {
    hide FindNewline;
    var k := FindNewline(s, 0);
    assert k >= n - 1;
    if s[n - 1] == NEWLINE { assert k <= n - 1; }
  }

  /** strtok with both line ends: the first token of a line. */
  method FirstToken(line: CString) returns (t: CString)
    ensures t == Token(line)
  {
    hide Token, TokenPart;
    var i := 0;
    assert line[0..] == line;
    while i < |line| && (line[i] == NEWLINE || line[i] == RETURN)
      invariant 0 <= i <= |line| && Token(line) == Token(line[i..])
    {
      TokenAt(line, i);
      i := i + 1;
    }
    var j := i;
    TokenAt(line, i);
    t := [];
    assert [] + TokenPart(line[i..]) == TokenPart(line[i..]);
    while j < |line| && line[j] != NEWLINE && line[j] != RETURN
      invariant i <= j <= |line| && Token(line) == t + TokenPart(line[j..])
    {
      PartAt(line, j);
      assert t + ([line[j]] + TokenPart(line[j + 1..])) == (t + [line[j]]) + TokenPart(line[j + 1..]);
      t := t + [line[j]];
      j := j + 1;
    }
    PartAt(line, j);
  }

  lemma TokenAt(line: CString, i: nat)
    requires i <= |line|
    ensures i < |line| && (line[i] == NEWLINE || line[i] == RETURN) ==> Token(line[i..]) == Token(line[i + 1..])
    ensures i == |line| || (line[i] != NEWLINE && line[i] != RETURN) ==> Token(line[i..]) == TokenPart(line[i..])
  {
    assert i < |line| ==> line[i..][1..] == line[i + 1..];
  }

  lemma PartAt(line: CString, j: nat)
    requires j <= |line|
    ensures j < |line| && line[j] != NEWLINE && line[j] != RETURN ==>
      TokenPart(line[j..]) == [line[j]] + TokenPart(line[j + 1..])
    ensures j == |line| || line[j] == NEWLINE || line[j] == RETURN ==> TokenPart(line[j..]) == []
  {
    assert j < |line| ==> line[j..][1..] == line[j + 1..];
  }

  /** The loop over the command file. */
  method ReadFile(text: CString, n: nat) returns (r: Option<seq<CString>>)
    ensures r == FileArgs(text, n)
  {
    hide Chunk, Token;
    var pos := 0;
    var args: seq<CString> := [];
    assert text[0..] == text;
    BeforeNone(FileArgs(text, n));
    while |args| < n && pos < |text|
      invariant |args| <= n && 0 <= pos <= |text|
      invariant FileArgs(text, n) == Before(args, FileArgs(text[pos..], n - |args|))
      decreases n - |args|
    {
      var k := ReadLine(text, pos);
      var t := FirstToken(text[pos..pos + k]);
      assert text[pos..][..k] == text[pos..pos + k] && text[pos..][k..] == text[pos + k..];
      if t == [] { return None; }
      Before2(args, t, FileArgs(text[pos + k..], n - |args| - 1));
      args := args + [t];
      pos := pos + k;
    }
    assert args + [] == args;
    return Some(args);
  }

  ghost function Before(args: seq<CString>, r: Option<seq<CString>>): (all: Option<seq<CString>>)
  {
    if r.None? then None else Some(args + r.value)
  }

  lemma BeforeNone(r: Option<seq<CString>>)
    ensures Before([], r) == r
  {
    if r.Some? { assert [] + r.value == r.value; }
  }

  lemma Before2(args: seq<CString>, t: CString, r: Option<seq<CString>>)
    ensures Before(args + [t], r) == Before(args, Before([t], r))
  {
    if r.Some? { assert args + [t] + r.value == args + ([t] + r.value); }
  }

  /** The vector of a run: given arguments win over those in the control block, and these over the command file. */
  function ChooseArgs(given: seq<CString>, field: CString, file: Option<CString>): (r: Option<seq<CString>>)
  {
    var boot := ReadArgs(field);
    if given != [] then Some(given)
    else if boot.Some? && boot.value != [] then boot
    else if file.Some? then FileArgs(file.value, MAX_ARGS - 1)
    else Some([])
  }

  /** get_args, with the control block already read into memory. */
  method GetArgs(given: seq<CString>, rec: array<byte>, file: Option<CString>) returns (r: Option<seq<CString>>)
    requires rec.Length == ROOM
    modifies rec
    ensures r == ChooseArgs(given, Text(old(rec[..])), file)
    ensures r.Some? ==> Text(rec[..]) == Image(r.value)
  {
    hide Text, ReadArgs, FileArgs, Image;
    var args := given;
    if args == [] {
      var boot := ReadField(rec);
      if boot.Some? { args := boot.value; }
    }
    if args == [] && file.Some? {
      var more := ReadFile(file.value, MAX_ARGS - 1);
      if more.None? { return None; }
      args := more.value;
    }
    WriteField(rec, args);
    return Some(args);
  }
}
