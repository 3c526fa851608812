/** The dependency phase of check_deps in dpkg.c. */
module DpkgDeps {
  import opened Bits
  import opened DpkgHash
  import opened DpkgVersion
  import opened DpkgTables

  // ---- status words ----

  /** strcspn: the length of the part of s before the first of the given characters. */
  function Until(s: seq<byte>, stops: seq<byte>): (n: nat)
    ensures n <= |s| && (forall i :: 0 <= i < n ==> s[i] !in stops) && (n < |s| ==> s[n] in stops)
  {
    if s == [] || s[0] in stops then 0 else 1 + Until(s[1..], stops)
  }

  /** strspn with a set of characters: the length of the part of s made of them. */
  function While(s: seq<byte>, cs: seq<byte>): (n: nat)
    ensures n <= |s| && (forall i :: 0 <= i < n ==> s[i] in cs) && (n < |s| ==> s[n] !in cs)
  {
    if s == [] || s[0] !in cs then 0 else 1 + While(s[1..], cs)
  }

  const SPACE: byte := 32
  const NEWLINE: byte := 10

  /** s after n words and the spaces after them. */
  function Skip(s: CString, n: nat): (r: CString)
  {
    if n == 0 then s else
    var t := s[Until(s, [SPACE])..];
    Skip(t[While(t, [SPACE])..], n - 1)
  }

  /** The n-th word of a status line, counted from 1: want, flag, status (get_status). */
  function Word(s: CString, n: nat): (w: CString)
    requires n >= 1
  {
    var t := Skip(s, n - 1);
    t[..Until(t, [SPACE, NEWLINE])]
  }

  const INSTALL: CString := [105, 110, 115, 116, 97, 108, 108]
  const INSTALLED: CString := [105, 110, 115, 116, 97, 108, 108, 101, 100]

  /** The status line at slot i is that of the package named key. */
  ghost predicate StatusAt(names: Slots, pk: Packages, st: Statuses, key: CString, i: nat)
  {
    i < STATUS_HASH_PRIME && i < |st| && st[i].Some? && NameIn(names, pk, st[i]) == Some(key)
  }

  /** The status line of a package has w as its n-th word. */
  ghost predicate HasWord(names: Slots, pk: Packages, st: Statuses, key: CString, n: nat, w: CString)
    requires n >= 1
  {
    exists i: nat :: StatusAt(names, pk, st, key, i) && Word(Str(names, st[i].value.status), n) == w
  }

  /** A pre-dependency needs an installed package, a dependency one that is wanted. */
  ghost predicate Good(names: Slots, pk: Packages, st: Statuses, key: CString, kind: EdgeType)
  {
    if kind == PreDepends then HasWord(names, pk, st, key, 3, INSTALLED)
    else kind == Depends && HasWord(names, pk, st, key, 1, INSTALL)
  }

  lemma OneStatus(names: Slots, pk: Packages, st: Statuses, key: CString, i: nat, j: nat)
    requires StatusOk(names, pk, st) && StatusAt(names, pk, st, key, i) && StatusAt(names, pk, st, key, j)
    ensures i == j
  {
    hide TableOk, PackagesOk;
    TableSize(View(names, pk, st), STATUS_HASH_PRIME);
    OnePlace(View(names, pk, st), STATUS_HASH_PRIME, i, j);
  }

  /** All tables are in order and none is full. */
  ghost predicate Db(names: Slots, pk: Packages, st: Statuses)
  {
    StatusOk(names, pk, st) && HasRoom(pk) && |st| == STATUS_HASH_PRIME + 1 &&
      Free(View(names, pk, st), STATUS_HASH_PRIME) >= 1
  }

  /** ks holds the words that this phase interns: two of each status line and the two they are compared with. */
  ghost predicate Words(names: Slots, st: Statuses, ks: set<CString>)
  {
    INSTALL in ks && INSTALLED in ks &&
    forall i: nat :: i < STATUS_HASH_PRIME && i < |st| && st[i].Some? ==>
      Word(Str(names, st[i].value.status), 1) in ks && Word(Str(names, st[i].value.status), 3) in ks
  }

  /** The state all through the phase: names is the name table at its start; it may have grown to t, and there is room
      in t for the words of ks. */
  ghost predicate Ready(t: Slots, names: Slots, pk: Packages, st: Statuses, ks: set<CString>)
  {
    Db(names, pk, st) && TableOk(t, NAME_HASH_PRIME) && Grows(names, t) && Room(t, NAME_HASH_PRIME, ks, 0) &&
      Words(names, st, ks)
  }

  lemma ReadyFacts(t: Slots, names: Slots, pk: Packages, st: Statuses, ks: set<CString>)
    requires Ready(t, names, pk, st, ks)
    ensures |t| == |names| == NAME_HASH_PRIME + 1 && |pk| == PACKAGE_HASH_PRIME + 1 && |st| == STATUS_HASH_PRIME + 1
    ensures forall i: nat :: IsName(names, i) ==> t[i] == names[i]
  {
  }

  lemma StillReady(t: Slots, t': Slots, names: Slots, pk: Packages, st: Statuses, ks: set<CString>)
    requires Ready(t, names, pk, st, ks) && Grows(t, t') && TableOk(t', NAME_HASH_PRIME) &&
      Room(t', NAME_HASH_PRIME, ks, 0)
    ensures Ready(t', names, pk, st, ks)
  {
    hide Db, TableOk, Room, Words;
    GrowsTrans(names, t, t');
  }

  lemma SearchEnds(t: Slots, names: Slots, pk: Packages, st: Statuses, ks: set<CString>, key: CString)
    requires Ready(t, names, pk, st, ks)
    ensures StatusOk(names, pk, st) && Grows(names, t) && |st| >= STATUS_HASH_PRIME && StatusEnds(names, pk, st, key) &&
      HasRoom(pk)
    ensures PackagesOk(names, pk)
  {
    hide TableOk, PackagesOk, Room, Words;
  }

  /** The status line found for a package. */
  lemma StatusLine(t: Slots, names: Slots, pk: Packages, st: Statuses, ks: set<CString>, i: nat)
    requires Ready(t, names, pk, st, ks) && i < STATUS_HASH_PRIME && i < |st| && st[i].Some?
    ensures IsName(names, st[i].value.status) && IsName(t, st[i].value.status) &&
      t[st[i].value.status] == names[st[i].value.status]
    ensures Word(Str(names, st[i].value.status), 1) in ks && Word(Str(names, st[i].value.status), 3) in ks
    ensures INSTALL in ks && INSTALLED in ks
  {
    hide Word, Room, TableOk, PackagesOk;
  }

  /** get_status(status_num, n) compared with w, by their indices, for the package named key; false if it has no
      status. */
  method TestWord(table: NameTable, ghost ns: Slots, pk: array<Option<Node>>, st: array<Option<StatusNode>>,
                  ghost ks: set<CString>,
                  key: CString, n: nat, w: CString)
    returns (r: bool)
    requires Ready(table.slots[..], ns, pk[..], st[..], ks) && ((n == 1 && w == INSTALL) || (n == 3 && w == INSTALLED))
    modifies table.slots
    ensures Ready(table.slots[..], ns, pk[..], st[..], ks)
    ensures r == HasWord(ns, pk[..], st[..], key, n, w)
  {
    hide Ready, StatusOk, TableOk, PackagesOk, HasRoom, Free, Slot, Word, Room, Grows, Stored, StatusEnds;
    ghost var t, ps, ss := table.slots[..], pk[..], st[..];
    ReadyFacts(t, ns, ps, ss, ks);
    SearchEnds(t, ns, ps, ss, ks, key);
    var i, k := SearchStatus(table.slots, ns, pk, st, key);
    if st[i].None? {
      Unknown(ns, ps, ss, key, n, w);
      return false;
    }
    StatusLine(t, ns, ps, ss, ks, i);
    assert StatusAt(ns, ps, ss, key, i);
    KnownStatus(ns, ps, ss, key, i, n, w);
    r := SameWord(table, ns, pk, st, ks, Word(table.slots[st[i].value.status].value, n), w);
  }

  /** Interning two words tells whether they are equal. */
  method SameWord(table: NameTable, ghost ns: Slots, pk: array<Option<Node>>, st: array<Option<StatusNode>>,
                  ghost ks: set<CString>,
                  a: CString, b: CString)
    returns (r: bool)
    requires Ready(table.slots[..], ns, pk[..], st[..], ks) && a in ks && b in ks
    modifies table.slots
    ensures Ready(table.slots[..], ns, pk[..], st[..], ks) && pk[..] == old(pk[..]) && st[..] == old(st[..])
    ensures r == (a == b)
  {
    hide Db, TableOk, Room, Words, Stored, Free;
    ghost var t := table.slots[..];
    var i := Intern(table, a, ks);
    ghost var t1 := table.slots[..];
    var j := Intern(table, b, ks);
    GrowsTrans(t, t1, table.slots[..]);
    StillReady(t, table.slots[..], ns, pk[..], st[..], ks);
    assert t1[i] == Some(a) && table.slots[i] == Some(a);
    if a == b { OnePlace(table.slots[..], NAME_HASH_PRIME, i, j); }
    r := i == j;
  }

  lemma Unknown(names: Slots, pk: Packages, st: Statuses, key: CString, n: nat, w: CString)
    requires StatusOk(names, pk, st) && n >= 1 && !Stored(View(names, pk, st), STATUS_HASH_PRIME, key)
    ensures !HasWord(names, pk, st, key, n, w)
  {
    hide TableOk, PackagesOk, HasRoom, Free, Word;
    if HasWord(names, pk, st, key, n, w) {
      var i: nat :| StatusAt(names, pk, st, key, i) && Word(Str(names, st[i].value.status), n) == w;
      Found(View(names, pk, st), STATUS_HASH_PRIME, key, i);
    }
  }

  lemma KnownStatus(names: Slots, pk: Packages, st: Statuses, key: CString, i: nat, n: nat, w: CString)
    requires StatusOk(names, pk, st) && n >= 1 && StatusAt(names, pk, st, key, i)
    ensures HasWord(names, pk, st, key, n, w) == (Word(Str(names, st[i].value.status), n) == w)
  {
    hide TableOk, PackagesOk, HasRoom, Free, Word;
    if HasWord(names, pk, st, key, n, w) {
      var j: nat :| StatusAt(names, pk, st, key, j) && Word(Str(names, st[j].value.status), n) == w;
      OneStatus(names, pk, st, key, i, j);
    }
  }

  /** package_satisfies_dependency. */
  method PackageSatisfies(table: NameTable, ghost ns: Slots, pk: array<Option<Node>>, st: array<Option<StatusNode>>,
                          ghost ks: set<CString>,
                          package: nat, kind: EdgeType)
    returns (r: bool)
    requires Ready(table.slots[..], ns, pk[..], st[..], ks) && package < PACKAGE_HASH_PRIME && package < pk.Length &&
      pk[package].Some?
    modifies table.slots
    ensures Ready(table.slots[..], ns, pk[..], st[..], ks) && pk[..] == old(pk[..]) && st[..] == old(st[..])
    ensures r == Good(ns, pk[..], st[..], Str(ns, pk[package].value.name), kind)
  {
    hide Ready, TableOk, PackagesOk, HasRoom, Free, HasWord;
    ghost var t, ps, ss := table.slots[..], pk[..], st[..];
    ReadyFacts(t, ns, ps, ss, ks);
    SearchEnds(t, ns, ps, ss, ks, []);
    PackageName(ns, ps, package);
    var key := table.slots[pk[package].value.name].value;
    match kind
    case PreDepends => r := TestWord(table, ns, pk, st, ks, key, 3, INSTALLED);
    case Depends => r := TestWord(table, ns, pk, st, ks, key, 1, INSTALL);
    case _ => r := false;
  }

  // ---- one dependency ----

  ghost predicate DoesProvide(n: Node, needle: nat)
  {
    exists j :: 0 <= j < |n.edges| && n.edges[j].kind == Provides && n.edges[j].name == needle
  }

  /** Package i provides needle. */
  ghost predicate IsProvider(pk: Packages, i: int, needle: nat)
  {
    0 <= i < PACKAGE_HASH_PRIME && i < |pk| && pk[i].Some? && DoesProvide(pk[i].value, needle)
  }

  /** search_for_provides: the next provider after startAt; -1 if there is none. */
  method SearchForProvides(pk: array<Option<Node>>, needle: nat, startAt: int) returns (r: int)
    requires pk.Length == PACKAGE_HASH_PRIME + 1 && startAt >= -1
    ensures r == -1 || (r > startAt && IsProvider(pk[..], r, needle))
    ensures forall i :: startAt < i && IsProvider(pk[..], i, needle) ==> r != -1 && r <= i
  {
    var i := startAt + 1;
    while i < PACKAGE_HASH_PRIME
      invariant startAt < i
      invariant forall k :: startAt < k < i ==> !IsProvider(pk[..], k, needle)
    {
      if pk[i].Some? {
        var n := pk[i].value;
        var j := 0;
        while j < |n.edges|
          invariant 0 <= j <= |n.edges|
          invariant forall k :: 0 <= k < j ==> !(n.edges[k].kind == Provides && n.edges[k].name == needle)
        {
          if n.edges[j].kind == Provides && n.edges[j].name == needle {
            assert DoesProvide(n, needle);
            return i;
          }
          j := j + 1;
        }
      }
      i := i + 1;
    }
    return -1;
  }

  /** Some package provides the name and has the status that the dependency needs. */
  ghost predicate Provided(names: Slots, pk: Packages, st: Statuses, e: Edge)
  {
    exists i :: IsProvider(pk, i, e.name) && Good(names, pk, st, Str(names, pk[i].value.name), e.kind)
  }

  /** An edge is satisfied directly or by a provider. */
  ghost predicate Satisfied(names: Slots, pk: Packages, st: Statuses, e: Edge)
  {
    (SomeFits(names, pk, e.name, e.version, e.op) && Good(names, pk, st, Str(names, e.name), e.kind)) ||
      Provided(names, pk, st, e)
  }

  /** The search for someone who provides what the edge asks for. */
  method SearchProviders(table: NameTable, ghost ns: Slots, pk: array<Option<Node>>, st: array<Option<StatusNode>>,
                         ghost ks: set<CString>,
                         e: Edge)
    returns (r: bool)
    requires Ready(table.slots[..], ns, pk[..], st[..], ks)
    modifies table.slots
    ensures Ready(table.slots[..], ns, pk[..], st[..], ks) && pk[..] == old(pk[..]) && st[..] == old(st[..])
    ensures r == Provided(ns, pk[..], st[..], e)
  {
    hide Ready, Good, DoesProvide;
    ghost var ps, ss := pk[..], st[..];
    ReadyFacts(table.slots[..], ns, ps, ss, ks);
    var provider := -1;
    r := false;
    while true
      invariant -1 <= provider < PACKAGE_HASH_PRIME && pk[..] == ps && st[..] == ss &&
        Ready(table.slots[..], ns, ps, ss, ks)
      invariant forall i :: i <= provider && IsProvider(ps, i, e.name) ==>
        !Good(ns, ps, ss, Str(ns, ps[i].value.name), e.kind)
      decreases PACKAGE_HASH_PRIME - provider
    {
      var next := SearchForProvides(pk, e.name, provider);
      assert pk[..] == ps;
      if next <= -1 {
        assert forall i :: IsProvider(ps, i, e.name) ==> i <= provider;
        return false;
      }
      var ok := PackageSatisfies(table, ns, pk, st, ks, next, e.kind);
      if ok {
        assert IsProvider(ps, next, e.name) && Good(ns, ps, ss, Str(ns, ps[next].value.name), e.kind);
        return true;
      }
      provider := next;
    }
  }

  /** The part of check_deps that looks at one alternative. */
  method TestEdge(table: NameTable, ghost ns: Slots, pk: array<Option<Node>>, st: array<Option<StatusNode>>,
                  ghost ks: set<CString>, e: Edge)
    returns (r: bool)
    requires Ready(table.slots[..], ns, pk[..], st[..], ks) && EdgeOk(ns, e) &&
      (e.kind == PreDepends || e.kind == Depends)
    modifies table.slots
    ensures Ready(table.slots[..], ns, pk[..], st[..], ks) && pk[..] == old(pk[..]) && st[..] == old(st[..])
    ensures r == Satisfied(ns, pk[..], st[..], e)
  {
    hide Ready, PackagesOk, StatusOk, HasRoom, Free, Good, DoesProvide, IsProvider, Slot, Holds, Provided, StatusEnds,
      Grows;
    ghost var t, ps, ss := table.slots[..], pk[..], st[..];
    ReadyFacts(t, ns, ps, ss, ks);
    SearchEnds(t, ns, ps, ss, ks, []);
    var num, k := SearchPackage(table.slots, ns, pk, e.name, e.version, e.op);
    r := false;
    if pk[num].Some? {
      assert ps[num].Some? && Fits(ns, ps[num].value, e.name, e.version, e.op);
      r := PackageSatisfies(table, ns, pk, st, ks, num, e.kind);
    } else {
      assert forall i: nat :: i < PACKAGE_HASH_PRIME && ps[i].Some? ==>
        ps[i] == pk[i] && !Fits(ns, ps[i].value, e.name, e.version, e.op);
    }
    if !r { r := SearchProviders(table, ns, pk, st, ks, e); }
  }

  // ---- the edges of a package ----

  /** What a comma-separated part of a dependency field becomes: one edge, a root edge and its alternatives, or an edge
      of another kind. */
  datatype Field = Alone(e: Edge) | Choice(root: Edge, alts: seq<Edge>) | Other(e: Edge)

  predicate IsDepend(k: EdgeType) { k == PreDepends || k == Depends }

  predicate IsOr(k: EdgeType) { k == OrPreDepends || k == OrDepends }

  /** The type of the root of alternatives of type k. */
  function OrOf(k: EdgeType): (r: EdgeType) { if k == PreDepends then OrPreDepends else OrDepends }

  ghost predicate FieldOk(f: Field)
  {
    match f
    case Alone(e) => IsDepend(e.kind)
    case Other(e) => !IsDepend(e.kind) && !IsOr(e.kind)
    case Choice(root, alts) =>
      |alts| >= 1 && root.version == |alts| && IsOr(root.kind) &&
      forall i :: 0 <= i < |alts| ==> IsDepend(alts[i].kind) && OrOf(alts[i].kind) == root.kind
  }

  ghost function Edges(f: Field): (r: seq<Edge>)
  {
    match f
    case Alone(e) => [e]
    case Other(e) => [e]
    case Choice(root, alts) => [root] + alts
  }

  ghost function Flatten(fs: seq<Field>): (r: seq<Edge>)
    decreases |fs|
  {
    if fs == [] then [] else Edges(fs[0]) + Flatten(fs[1..])
  }

  /** A part is met if one of its alternatives is satisfied. */
  ghost predicate Met(names: Slots, pk: Packages, st: Statuses, f: Field)
  {
    match f
    case Alone(e) => Satisfied(names, pk, st, e)
    case Other(e) => true
    case Choice(root, alts) => exists i :: 0 <= i < |alts| && Satisfied(names, pk, st, alts[i])
  }

  ghost predicate AllMet(names: Slots, pk: Packages, st: Statuses, fs: seq<Field>)
  {
    forall i :: 0 <= i < |fs| ==> Met(names, pk, st, fs[i])
  }

  /** Where the loop stands: before field fi, or among the alternatives of field fi, before number ai. */
  datatype Cursor = Between(fi: nat) | Inside(fi: nat, ai: nat)

  ghost function Rest(fs: seq<Field>, c: Cursor): (r: seq<Edge>)
    requires c.fi <= |fs| && (c.Inside? ==> c.fi < |fs| && fs[c.fi].Choice? && c.ai <= |fs[c.fi].alts|)
  {
    match c
    case Between(fi) => Flatten(fs[fi..])
    case Inside(fi, ai) => fs[fi].alts[ai..] + Flatten(fs[fi + 1..])
  }

  ghost predicate Stands(names: Slots, pk: Packages, st: Statuses, fs: seq<Field>, c: Cursor, edges: seq<Edge>, j: int,
                         alternatives: nat, root: Option<Edge>)
  {
    0 <= j <= |edges| && c.fi <= |fs| && (c.Inside? ==> c.fi < |fs| && fs[c.fi].Choice? && c.ai < |fs[c.fi].alts|) &&
    edges[j..] == Rest(fs, c) && (forall i :: 0 <= i < c.fi ==> Met(names, pk, st, fs[i])) &&
    match c
    case Between(fi) => alternatives == 0 || (alternatives == 1 && root == None)
    case Inside(fi, ai) =>
      root == Some(fs[fi].root) && alternatives == |fs[fi].alts| - ai &&
      forall i :: 0 <= i < ai ==> !Satisfied(names, pk, st, fs[fi].alts[i])
  }

  lemma Unfold(fs: seq<Field>, fi: nat)
    requires fi < |fs|
    ensures Flatten(fs[fi..]) == Edges(fs[fi]) + Flatten(fs[fi + 1..])
  {
    assert fs[fi..][0] == fs[fi] && fs[fi..][1..] == fs[fi + 1..];
  }

  /** The rest after a step, for each way a part can start or go on. */
  lemma RestStep(fs: seq<Field>, fi: nat)
    requires fi < |fs|
    ensures fs[fi].Choice? ==> Rest(fs, Between(fi)) == [fs[fi].root] + Rest(fs, Inside(fi, 0))
    ensures !fs[fi].Choice? ==> Rest(fs, Between(fi)) == [fs[fi].e] + Rest(fs, Between(fi + 1))
  {
    hide Flatten;
    Unfold(fs, fi);
    if fs[fi].Choice? {
      var r, a, t := [fs[fi].root], fs[fi].alts, Flatten(fs[fi + 1..]);
      assert a[0..] == a;
      assert (r + a) + t == r + (a + t);
    }
  }

  lemma RestInside(fs: seq<Field>, fi: nat, ai: nat)
    requires fi < |fs| && fs[fi].Choice? && ai < |fs[fi].alts|
    ensures Rest(fs, Inside(fi, ai)) == [fs[fi].alts[ai]] + Rest(fs, Inside(fi, ai + 1))
    ensures Rest(fs, Inside(fi, ai))[|fs[fi].alts| - ai..] == Rest(fs, Between(fi + 1))
  {
    hide Flatten;
    var a, t := fs[fi].alts, Flatten(fs[fi + 1..]);
    assert a[ai..] == [a[ai]] + a[ai + 1..];
    assert ([a[ai]] + a[ai + 1..]) + t == [a[ai]] + (a[ai + 1..] + t);
  }

  lemma RestEnd(fs: seq<Field>, fi: nat)
    requires fi == |fs|
    ensures Rest(fs, Between(fi)) == []
  {
  }

  lemma Advance(edges: seq<Edge>, j: nat, x: Edge, rest: seq<Edge>)
    requires j <= |edges| && edges[j..] == [x] + rest
    ensures j < |edges| && edges[j] == x && edges[j + 1..] == rest
  {
    assert edges[j..][0] == x && edges[j + 1..] == edges[j..][1..];
  }

  lemma Jump(edges: seq<Edge>, j: nat, n: nat)
    requires j + n <= |edges|
    ensures edges[j + n..] == edges[j..][n..]
  {
  }

  /** A root edge starts a choice. */
  lemma AtRoot(names: Slots, pk: Packages, st: Statuses, fs: seq<Field>, c: Cursor, edges: seq<Edge>, j: nat,
               alternatives: nat, root: Option<Edge>)
    returns (c': Cursor)
    requires Stands(names, pk, st, fs, c, edges, j, alternatives, root) && j < |edges| && IsOr(edges[j].kind)
    requires forall i :: 0 <= i < |fs| ==> FieldOk(fs[i])
    ensures Stands(names, pk, st, fs, c', edges, j + 1, edges[j].version, Some(edges[j]))
  {
    hide Met, Satisfied, Rest;
    if c.Inside? {
      RestInside(fs, c.fi, c.ai);
    } else {
      if c.fi == |fs| { RestEnd(fs, c.fi); }
      RestStep(fs, c.fi);
      assert FieldOk(fs[c.fi]);
      c' := Inside(c.fi, 0);
      Advance(edges, j, fs[c.fi].root, Rest(fs, c'));
    }
  }

  /** Any other edge that is no dependency stands alone. */
  lemma AtOther(names: Slots, pk: Packages, st: Statuses, fs: seq<Field>, c: Cursor, edges: seq<Edge>, j: nat,
                alternatives: nat, root: Option<Edge>)
    returns (c': Cursor)
    requires Stands(names, pk, st, fs, c, edges, j, alternatives, root) && j < |edges| && !IsOr(edges[j].kind) &&
      !IsDepend(edges[j].kind)
    requires forall i :: 0 <= i < |fs| ==> FieldOk(fs[i])
    ensures Stands(names, pk, st, fs, c', edges, j + 1,
                   if alternatives == 0 then 1 else alternatives, if alternatives == 0 then None else root)
  {
    hide Satisfied, Rest;
    if c.Inside? {
      RestInside(fs, c.fi, c.ai);
    } else {
      if c.fi == |fs| { RestEnd(fs, c.fi); }
      RestStep(fs, c.fi);
      assert FieldOk(fs[c.fi]);
      c' := Between(c.fi + 1);
      Advance(edges, j, fs[c.fi].e, Rest(fs, c'));
    }
  }

  /** A dependency among alternatives: its type fits the root, and the choice is decided, or goes on, or fails. */
  lemma AtAlternative(names: Slots, pk: Packages, st: Statuses, fs: seq<Field>, c: Cursor, edges: seq<Edge>, j: nat,
                      alternatives: nat, root: Option<Edge>)
    requires Stands(names, pk, st, fs, c, edges, j, alternatives, root) && j < |edges| && c.Inside?
    requires forall i :: 0 <= i < |fs| ==> FieldOk(fs[i])
    ensures alternatives >= 1 && root.Some? && OrOf(edges[j].kind) == root.value.kind && j + alternatives <= |edges|
    ensures Satisfied(names, pk, st, edges[j]) ==>
      Stands(names, pk, st, fs, Between(c.fi + 1), edges, j + alternatives, 0, root)
    ensures !Satisfied(names, pk, st, edges[j]) && alternatives > 1 ==>
      Stands(names, pk, st, fs, Inside(c.fi, c.ai + 1), edges, j + 1, alternatives - 1, root)
    ensures !Satisfied(names, pk, st, edges[j]) && alternatives == 1 ==> !AllMet(names, pk, st, fs)
  {
    hide Satisfied, Rest;
    var alts := fs[c.fi].alts;
    RestInside(fs, c.fi, c.ai);
    RestLength(fs, c.fi, c.ai);
    Advance(edges, j, alts[c.ai], Rest(fs, Inside(c.fi, c.ai + 1)));
    Jump(edges, j, alternatives);
    assert FieldOk(fs[c.fi]);
    if Satisfied(names, pk, st, edges[j]) {
      assert Met(names, pk, st, fs[c.fi]);
    } else if alternatives == 1 {
      assert !Met(names, pk, st, fs[c.fi]);
    }
  }

  lemma RestLength(fs: seq<Field>, fi: nat, ai: nat)
    requires fi < |fs| && fs[fi].Choice? && ai <= |fs[fi].alts|
    ensures |Rest(fs, Inside(fi, ai))| >= |fs[fi].alts| - ai
  {
  }

  /** A dependency without alternatives. */
  lemma AtAlone(names: Slots, pk: Packages, st: Statuses, fs: seq<Field>, c: Cursor, edges: seq<Edge>, j: nat,
                alternatives: nat, root: Option<Edge>)
    requires Stands(names, pk, st, fs, c, edges, j, alternatives, root) && j < |edges| && c.Between? &&
      IsDepend(edges[j].kind)
    requires forall i :: 0 <= i < |fs| ==> FieldOk(fs[i])
    ensures alternatives == 0 || (alternatives == 1 && root == None)
    ensures Satisfied(names, pk, st, edges[j]) ==> Stands(names, pk, st, fs, Between(c.fi + 1), edges, j + 1, 0, None)
    ensures !Satisfied(names, pk, st, edges[j]) ==> !AllMet(names, pk, st, fs)
  {
    hide Satisfied, Rest;
    if c.fi == |fs| { RestEnd(fs, c.fi); }
    RestStep(fs, c.fi);
    assert FieldOk(fs[c.fi]);
    Advance(edges, j, fs[c.fi].e, Rest(fs, Between(c.fi + 1)));
    if !Satisfied(names, pk, st, edges[j]) { assert !Met(names, pk, st, fs[c.fi]); }
  }

  /** The loop over the edges of one package; false where the program reports an error and exits. */
  method CheckEdges(table: NameTable, ghost ns: Slots, pk: array<Option<Node>>, st: array<Option<StatusNode>>,
                    ghost ks: set<CString>,
                    edges: seq<Edge>, ghost fs: seq<Field>)
    returns (ok: bool)
    requires Ready(table.slots[..], ns, pk[..], st[..], ks) && edges == Flatten(fs) &&
      forall i :: 0 <= i < |fs| ==> FieldOk(fs[i])
    requires forall j :: 0 <= j < |edges| ==> EdgeOk(ns, edges[j])
    modifies table.slots
    ensures Ready(table.slots[..], ns, pk[..], st[..], ks) && pk[..] == old(pk[..]) && st[..] == old(st[..])
    ensures ok == AllMet(ns, pk[..], st[..], fs)
  {
    hide Ready, Satisfied, FieldOk, Stands, EdgeOk, AllMet;
    ghost var ps, ss := pk[..], st[..];
    var j := 0;
    var alternatives: nat := 0;
    var root: Option<Edge> := None;
    ghost var c := Between(0);
    AtStart(ns, ps, ss, fs, edges);
    while j < |edges|
      invariant 0 <= j <= |edges| && pk[..] == ps && st[..] == ss && Ready(table.slots[..], ns, ps, ss, ks)
      invariant Stands(ns, ps, ss, fs, c, edges, j, alternatives, root)
    {
      var e := edges[j];
      if IsOr(e.kind) {
        c := AtRoot(ns, ps, ss, fs, c, edges, j, alternatives, root);
        alternatives, root := e.version, Some(e);
      } else if IsDepend(e.kind) {
        ghost var inside := c.Inside?;
        if inside { AtAlternative(ns, ps, ss, fs, c, edges, j, alternatives, root); } else {
          AtAlone(ns, ps, ss, fs, c, edges, j, alternatives, root); }
        if alternatives == 0 { alternatives, root := 1, None; }
        if root.Some? && OrOf(e.kind) != root.value.kind { return false; }
        var r := TestEdge(table, ns, pk, st, ks, e);
        alternatives := alternatives - 1;
        if !r && alternatives == 0 { return false; }
        c := if !inside || r then Between(c.fi + 1) else Inside(c.fi, c.ai + 1);
        if r && alternatives != 0 {
          j := j + alternatives;
          alternatives := 0;
        }
      } else {
        c := AtOther(ns, ps, ss, fs, c, edges, j, alternatives, root);
        if alternatives == 0 { alternatives, root := 1, None; }
      }
      j := j + 1;
    }
    AtEnd(ns, ps, ss, fs, c, edges, j, alternatives, root);
    ok := true;
  }

  lemma AtStart(names: Slots, pk: Packages, st: Statuses, fs: seq<Field>, edges: seq<Edge>)
    requires edges == Flatten(fs)
    ensures Stands(names, pk, st, fs, Between(0), edges, 0, 0, None)
  {
    assert edges[0..] == edges && fs[0..] == fs;
  }

  lemma AtEnd(names: Slots, pk: Packages, st: Statuses, fs: seq<Field>, c: Cursor, edges: seq<Edge>, j: int,
              alternatives: nat, root: Option<Edge>)
    requires Stands(names, pk, st, fs, c, edges, j, alternatives, root) && j >= |edges|
    requires forall i :: 0 <= i < |fs| ==> FieldOk(fs[i])
    ensures AllMet(names, pk, st, fs)
  {
    hide Satisfied;
    if c.Inside? { RestLength(fs, c.fi, c.ai); }
    if c.fi < |fs| && c.Between? { RestStep(fs, c.fi); }
  }

  // ---- all packages ----

  /** Package i is one that is wanted for install. */
  ghost predicate Wanted(names: Slots, pk: Packages, st: Statuses, i: nat)
  {
    i < |pk| && pk[i].Some? && HasWord(names, pk, st, Str(names, pk[i].value.name), 1, INSTALL)
  }

  /** The edges of every package are laid out in parts. */
  ghost predicate LaidOut(pk: Packages, fs: seq<seq<Field>>)
  {
    |fs| == PACKAGE_HASH_PRIME <= |pk| &&
    forall i :: 0 <= i < PACKAGE_HASH_PRIME && pk[i].Some? ==>
      pk[i].value.edges == Flatten(fs[i]) && forall k :: 0 <= k < |fs[i]| ==> FieldOk(fs[i][k])
  }

  /** The words that the phase interns. */
  ghost function StatusWords(names: Slots, st: Statuses): (ks: set<CString>)
    ensures Words(names, st, ks)
  {
    var lines := set i | 0 <= i < |st| && st[i].Some? :: Str(names, st[i].value.status);
    {INSTALL, INSTALLED} + (set l | l in lines :: Word(l, 1)) + (set l | l in lines :: Word(l, 3))
  }

  /** The last loop of check_deps: it ends without an error exactly if every part of the dependencies of every wanted
      package is met. There must be room in the name table for the status words that get_status interns. */
  method CheckDependencies(table: NameTable, pk: array<Option<Node>>, st: array<Option<StatusNode>>,
                           ghost fs: seq<seq<Field>>)
    returns (ok: bool)
    requires Db(table.slots[..], pk[..], st[..]) && LaidOut(pk[..], fs)
    requires Room(table.slots[..], NAME_HASH_PRIME, StatusWords(table.slots[..], st[..]), 0)
    modifies table.slots
    ensures table.Valid() && Grows(old(table.slots[..]), table.slots[..]) && pk[..] == old(pk[..]) &&
      st[..] == old(st[..])
    ensures var ns := old(table.slots[..]);
            ok == forall i :: 0 <= i < PACKAGE_HASH_PRIME && Wanted(ns, pk[..], st[..], i) ==>
              AllMet(ns, pk[..], st[..], fs[i])
  {
    hide HasWord, Flatten, FieldOk, AllMet, TableOk, PackagesOk, NodeOk, Ready, Db, Room, Grows, StatusWords,
      StatusEnds, HasRoom;
    ghost var ns, ps, ss := table.slots[..], pk[..], st[..];
    ghost var ks := StatusWords(ns, ss);
    StartReady(ns, ps, ss);
    SearchEnds(ns, ns, ps, ss, ks, []);
    for i := 0 to PACKAGE_HASH_PRIME
      invariant pk[..] == ps && st[..] == ss && Ready(table.slots[..], ns, ps, ss, ks)
      invariant forall k :: 0 <= k < i && Wanted(ns, ps, ss, k) ==> AllMet(ns, ps, ss, fs[k])
    {
      ReadyFacts(table.slots[..], ns, ps, ss, ks);
      if pk[i].Some? {
        var node := pk[i].value;
        assert ps[i] == pk[i];
        PackageName(ns, ps, i);
        EdgesOk(ns, node);
        var wanted := TestWord(table, ns, pk, st, ks, table.slots[node.name].value, 1, INSTALL);
        assert pk[..] == ps && st[..] == ss;
        assert wanted == Wanted(ns, ps, ss, i);
        if wanted {
          var met := CheckEdges(table, ns, pk, st, ks, node.edges, fs[i]);
          if !met {
            EndReady(table.slots[..], ns, ps, ss, ks);
            return false;
          }
        }
      }
    }
    EndReady(table.slots[..], ns, ps, ss, ks);
    return true;
  }

  lemma StartReady(names: Slots, pk: Packages, st: Statuses)
    requires Db(names, pk, st) && Room(names, NAME_HASH_PRIME, StatusWords(names, st), 0)
    ensures Ready(names, names, pk, st, StatusWords(names, st))
  {
    hide Words, Room, Free, Word, View;
  }

  lemma EndReady(t: Slots, names: Slots, pk: Packages, st: Statuses, ks: set<CString>)
    requires Ready(t, names, pk, st, ks)
    ensures TableOk(t, NAME_HASH_PRIME) && Grows(names, t)
  {
    hide Db, TableOk, Grows, Room, Words;
  }

  lemma EdgesOk(names: Slots, n: Node)
    requires NodeOk(names, n)
    ensures IsName(names, n.name) && forall j :: 0 <= j < |n.edges| ==> EdgeOk(names, n.edges[j])
  {
  }
}
