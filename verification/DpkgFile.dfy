/** What a status file says about dependencies, in terms of its text alone, and that the tables built from it and
    the dependency phase of check_deps in dpkg.c decide exactly that. */
module DpkgFile {
  import opened Bits
  import opened DpkgHash
  import opened DpkgVersion
  import opened DpkgTables
  import opened DpkgDeps
  import opened DpkgSplit
  import opened DpkgIndex
  import opened DpkgDatabase

  // ---- the meaning of the text ----

  function NameOf(s: Stanza): (n: CString)
    requires LastName(s.entries).Some?
  {
    LastName(s.entries).value
  }

  /** The status line has the word that a dependency of the kind needs. */
  predicate LineGood(l: CString, kind: EdgeType)
  {
    if kind == PreDepends then Word(l, 3) == INSTALLED else kind == Depends && Word(l, 1) == INSTALL
  }

  /** The last stanza of the name has such a status line. */
  ghost predicate NameGood(ss: seq<Stanza>, name: CString, kind: EdgeType)
  {
    exists k: nat :: LastOfName(ss, k) && NameOf(ss[k]) == name && LineGood(ss[k].status, kind)
  }

  /** Stanza k has the name of the alternative and a version in the relation. */
  ghost predicate Offers(ss: seq<Stanza>, k: nat, a: Alt)
  {
    Current(ss, k) && NameOf(ss[k]) == a.name && Holds(LastVersion(ss[k].entries), a.version, a.op)
  }

  /** The alternative of a part of the line names n. */
  ghost predicate NamesIt(part: CString, junk: Operator, j: int, n: CString)
  {
    0 <= j < |Tokens(Trim(part), BAR)| && ParseAlt(Tokens(Trim(part), BAR)[j], junk).Some? &&
    ParseAlt(Tokens(Trim(part), BAR)[j], junk).value.name == n
  }

  ghost predicate PartNamed(part: CString, junk: Operator, n: CString)
  {
    exists j :: NamesIt(part, junk, j, n)
  }

  ghost predicate LineNamed(line: CString, junk: Operator, n: CString)
  {
    exists i :: 0 <= i < |Tokens(line, COMMA)| && PartNamed(Tokens(line, COMMA)[i], junk, n)
  }

  /** The field is one of those that list what a package provides, and n is among it. */
  ghost predicate EntryProvides(e: Entry, junk: Operator, n: CString)
  {
    e.Relation? && e.kind == Provides && LineNamed(e.value, junk, n)
  }

  ghost predicate StanzaProvides(s: Stanza, n: CString)
  {
    exists i :: 0 <= i < |s.entries| && EntryProvides(s.entries[i], s.junk, n)
  }

  /** Stanza k provides the name, and the status of its own name is good. */
  ghost predicate ProvidedBy(ss: seq<Stanza>, a: Alt, kind: EdgeType, k: nat)
  {
    Current(ss, k) && StanzaProvides(ss[k], a.name) && NameGood(ss, NameOf(ss[k]), kind)
  }

  /** An alternative is met by a package of its name and version, or by a package that provides its name. */
  ghost predicate AltMet(ss: seq<Stanza>, a: Alt, kind: EdgeType)
  {
    (NameGood(ss, a.name, kind) && exists k: nat :: Offers(ss, k, a)) || exists k: nat :: ProvidedBy(ss, a, kind, k)
  }

  /** One of the alternatives of the part is met. */
  ghost predicate PartMet(ss: seq<Stanza>, part: CString, kind: EdgeType, junk: Operator)
  {
    exists j :: MeetsPart(ss, part, kind, junk, j)
  }

  ghost predicate MeetsPart(ss: seq<Stanza>, part: CString, kind: EdgeType, junk: Operator, j: int)
  {
    0 <= j < |Tokens(Trim(part), BAR)| && ParseAlt(Tokens(Trim(part), BAR)[j], junk).Some? &&
    AltMet(ss, ParseAlt(Tokens(Trim(part), BAR)[j], junk).value, kind)
  }

  /** All parts of the field are met; fields that are no dependencies ask for nothing. */
  ghost predicate EntryMet(ss: seq<Stanza>, e: Entry, junk: Operator)
  {
    e.Relation? && IsDepend(e.kind) ==>
      forall i :: 0 <= i < |Tokens(e.value, COMMA)| ==> PartMet(ss, Tokens(e.value, COMMA)[i], e.kind, junk)
  }

  ghost predicate StanzaMet(ss: seq<Stanza>, s: Stanza)
  {
    forall i :: 0 <= i < |s.entries| ==> EntryMet(ss, s.entries[i], s.junk)
  }

  /** Stanza k describes a package that is to be installed. */
  ghost predicate ToInstall(ss: seq<Stanza>, k: nat)
  {
    Current(ss, k) && NameGood(ss, NameOf(ss[k]), Depends)
  }

  /** Every package of the file that is to be installed has all its dependencies met. */
  ghost predicate FileMet(ss: seq<Stanza>)
  {
    forall k: nat :: k < |ss| && ToInstall(ss, k) ==> StanzaMet(ss, ss[k])
  }

  // ---- the tables hold what the file says ----

  /** The tables hold the file: packages, groups of dependencies and status lines. */
  ghost predicate Holding(ss: seq<Stanza>, t: Slots, pk: Packages, st: Statuses, fs: seq<seq<Field>>, src: seq<Stanza>)
  {
    StatusOk(t, pk, st) && Sourced(t, pk, fs, src) && HoldsPackages(ss, pk, src) && HoldsLines(ss, t, pk, st)
  }

  /** A stored package comes from a stanza of the file that is the last for it. */
  lemma SlotCurrent(ss: seq<Stanza>, t: Slots, pk: Packages, st: Statuses, fs: seq<seq<Field>>, src: seq<Stanza>,
                    i: nat)
    returns (k: nat)
    requires Holding(ss, t, pk, st, fs, src) && i < PACKAGE_HASH_PRIME && pk[i].Some?
    ensures Current(ss, k) && ss[k] == src[i] && NodeOk(t, pk[i].value)
    ensures PairOf(t, pk[i].value) == (NameOf(ss[k]), LastVersion(ss[k].entries))
  {
    hide StatusOk, From, LastName, LastVersion, Current, SamePackage;
    FromFacts(t, pk[i].value, fs[i], src[i]);
    assert IsCurrent(ss, src[i]);
    k :| CurrentAt(ss, k, src[i]);
  }

  /** ... and the last stanza for a package has its package stored. */
  lemma CurrentSlot(ss: seq<Stanza>, t: Slots, pk: Packages, st: Statuses, fs: seq<seq<Field>>, src: seq<Stanza>,
                    k: nat)
    returns (i: nat)
    requires Holding(ss, t, pk, st, fs, src) && Current(ss, k)
    ensures i < PACKAGE_HASH_PRIME && i < |pk| && pk[i].Some? && src[i] == ss[k]
  {
    hide StatusOk, From, LastName, LastVersion, Sourced, SamePackage;
    assert HasSlot(pk, src, ss[k]);
    i :| IsSlot(pk, src, ss[k], i);
    assert IsCurrent(ss, src[i]);
    var j: nat :| CurrentAt(ss, j, src[i]);
    SameSym(src[i], ss[k]);
  }

  /** A name with a stanza has a last one. */
  lemma {:induction false} LastExists(ss: seq<Stanza>, k: nat) returns (j: nat)
    requires k < |ss| && Keeps(ss[k])
    ensures LastOfName(ss, j) && LastName(ss[j].entries) == LastName(ss[k].entries)
    decreases |ss| - k
  {
    hide Keeps, LastName;
    if next :| k < next < |ss| && Keeps(ss[next]) && LastName(ss[next].entries) == LastName(ss[k].entries) {
      j := LastExists(ss, next);
    } else {
      j := k;
    }
  }

  lemma OneLast(ss: seq<Stanza>, j: nat, k: nat)
    requires LastOfName(ss, j) && LastOfName(ss, k) && LastName(ss[j].entries) == LastName(ss[k].entries)
    ensures j == k
  {
    hide Keeps, LastName;
  }

  /** The word found in the status table is that of the last stanza of the name. */
  lemma SameGood(ss: seq<Stanza>, t: Slots, pk: Packages, st: Statuses, fs: seq<seq<Field>>, src: seq<Stanza>,
                 k: nat, kind: EdgeType)
    requires Holding(ss, t, pk, st, fs, src) && k < |ss| && Keeps(ss[k])
    ensures Good(t, pk, st, NameOf(ss[k]), kind) <==> NameGood(ss, NameOf(ss[k]), kind)
  {
    hide StatusOk, Sourced, HoldsPackages, Word, LastName, HasWord, LegalStanza;
    var name := NameOf(ss[k]);
    var j := LastExists(ss, k);
    assert LineHeld(ss, j, t, pk, st);
    var r: nat :| StatusLineAt(t, pk, st, name, ss[j].status, r);
    KnownStatus(t, pk, st, name, r, 3, INSTALLED);
    KnownStatus(t, pk, st, name, r, 1, INSTALL);
    if NameGood(ss, name, kind) {
      var i: nat :| LastOfName(ss, i) && NameOf(ss[i]) == name && LineGood(ss[i].status, kind);
      OneLast(ss, i, j);
    }
  }

  // ---- what a package provides ----

  /** Some edge is one of what is provided and has the name. */
  ghost predicate HasProvides(es: seq<Edge>, needle: nat)
  {
    exists j :: IsProvides(es, needle, j)
  }

  ghost predicate IsProvides(es: seq<Edge>, needle: nat, j: int)
  {
    0 <= j < |es| && es[j].kind == Provides && es[j].name == needle
  }

  lemma ProvidesConcat(a: seq<Edge>, b: seq<Edge>, needle: nat)
    ensures HasProvides(a + b, needle) <==> HasProvides(a, needle) || HasProvides(b, needle)
  {
    var c := a + b;
    if HasProvides(c, needle) {
      var j :| IsProvides(c, needle, j);
      if j < |a| { assert IsProvides(a, needle, j); } else { assert IsProvides(b, needle, j - |a|); }
    }
    if HasProvides(a, needle) {
      var j :| IsProvides(a, needle, j);
      assert IsProvides(c, needle, j);
    }
    if HasProvides(b, needle) {
      var j :| IsProvides(b, needle, j);
      assert IsProvides(c, needle, j + |a|);
    }
  }

  /** The edges for texts provide the names in the texts. */
  lemma ProvidesFor(t: Slots, es: seq<Edge>, part: CString, kind: EdgeType, junk: Operator, needle: nat)
    requires TableOk(t, NAME_HASH_PRIME) && IsName(t, needle)
    requires EdgesFor(t, es, Tokens(Trim(part), BAR), kind, junk)
    ensures HasProvides(es, needle) <==> kind == Provides && PartNamed(part, junk, Str(t, needle))
  {
    hide TableOk, ParseAlt, Tokens;
    if HasProvides(es, needle) {
      var j :| IsProvides(es, needle, j);
      assert NamesIt(part, junk, j, Str(t, needle));
    }
    if kind == Provides && PartNamed(part, junk, Str(t, needle)) {
      var j :| NamesIt(part, junk, j, Str(t, needle));
      OnePlace(t, NAME_HASH_PRIME, es[j].name, needle);
      assert IsProvides(es, needle, j);
    }
  }

  lemma ProvidesPart(t: Slots, fs: seq<Field>, part: CString, kind: EdgeType, junk: Operator, needle: nat)
    requires TableOk(t, NAME_HASH_PRIME) && IsName(t, needle) && PartFields(t, fs, part, kind, junk)
    ensures HasProvides(Flatten(fs), needle) <==> kind == Provides && PartNamed(part, junk, Str(t, needle))
  {
    hide TableOk, Flatten, Tokens, EdgesFor, HasProvides, PartNamed;
    if HasRoot(part, kind) {
      assert fs == [fs[0]];
      FlatOne(fs[0]);
      ProvidesFor(t, fs[0].alts, part, kind, junk, needle);
      ProvidesConcat([fs[0].root], fs[0].alts, needle);
      NoRootProvides(fs[0].root, needle);
    } else {
      ProvidesFor(t, Flatten(fs), part, kind, junk, needle);
    }
  }

  lemma NoRootProvides(e: Edge, needle: nat)
    requires IsOr(e.kind)
    ensures !HasProvides([e], needle)
  {
  }

  lemma {:induction false} ProvidesParts(t: Slots, per: seq<seq<Field>>, parts: seq<CString>, kind: EdgeType,
                                         junk: Operator, needle: nat)
    requires TableOk(t, NAME_HASH_PRIME) && IsName(t, needle) && AllParts(t, per, parts, kind, junk)
    ensures HasProvides(Flatten(Concat(per)), needle) <==>
      kind == Provides && exists i :: 0 <= i < |per| && PartNamed(parts[i], junk, Str(t, needle))
    decreases |per|
  {
    hide TableOk, Flatten, PartFields, HasProvides, PartNamed;
    if per == [] {
      FlatNone();
      NoneProvided(needle);
    } else {
      var n := |per| - 1;
      ProvidesParts(t, per[..n], parts, kind, junk, needle);
      ProvidesPart(t, per[n], parts[n], kind, junk, needle);
      FlattenConcat(Concat(per[..n]), per[n]);
      ProvidesConcat(Flatten(Concat(per[..n])), Flatten(per[n]), needle);
    }
  }

  lemma NoneProvided(needle: nat)
    ensures !HasProvides([], needle)
  {
  }

  lemma ProvidesEntry(t: Slots, fs: seq<Field>, e: Entry, junk: Operator, needle: nat)
    requires TableOk(t, NAME_HASH_PRIME) && IsName(t, needle) && EntryFields(t, fs, e, junk)
    ensures HasProvides(Flatten(fs), needle) <==> EntryProvides(e, junk, Str(t, needle))
  {
    hide TableOk, Flatten, HasProvides, PartNamed, Tokens, AllParts;
    if e.Relation? {
      var parts := Tokens(e.value, COMMA);
      var per :| |per| == |parts| && AllParts(t, per, parts, e.kind, junk) && fs == Concat(per);
      ProvidesParts(t, per, parts, e.kind, junk, needle);
    } else {
      FlatNone();
      NoneProvided(needle);
    }
  }

  lemma {:induction false} ProvidesEntries(t: Slots, gs: seq<seq<Field>>, es: seq<Entry>, junk: Operator, needle: nat)
    requires TableOk(t, NAME_HASH_PRIME) && IsName(t, needle) && |gs| <= |es|
    requires forall i :: 0 <= i < |gs| ==> EntryFields(t, gs[i], es[i], junk)
    ensures HasProvides(Flatten(Concat(gs)), needle) <==>
      exists i :: 0 <= i < |gs| && EntryProvides(es[i], junk, Str(t, needle))
    decreases |gs|
  {
    hide TableOk, Flatten, EntryFields, HasProvides, EntryProvides;
    if gs == [] {
      FlatNone();
      NoneProvided(needle);
    } else {
      var n := |gs| - 1;
      ProvidesEntries(t, gs[..n], es, junk, needle);
      ProvidesEntry(t, gs[n], es[n], junk, needle);
      FlattenConcat(Concat(gs[..n]), gs[n]);
      ProvidesConcat(Flatten(Concat(gs[..n])), Flatten(gs[n]), needle);
    }
  }

  /** A node provides what its stanza says. */
  lemma ProvidesStanza(t: Slots, n: Node, fs: seq<Field>, s: Stanza, needle: nat)
    requires TableOk(t, NAME_HASH_PRIME) && IsName(t, needle) && From(t, n, fs, s)
    ensures DoesProvide(n, needle) <==> StanzaProvides(s, Str(t, needle))
  {
    hide TableOk, Flatten, EntryFields, EntryProvides, LastName, LastVersion, Concat;
    var gs :| NodeFor(t, n, gs, s.entries, s.junk) && fs == Concat(gs);
    ProvidesEntries(t, gs, s.entries, s.junk, needle);
    if DoesProvide(n, needle) {
      var j :| 0 <= j < |n.edges| && n.edges[j].kind == Provides && n.edges[j].name == needle;
      assert IsProvides(n.edges, needle, j);
    }
    if HasProvides(n.edges, needle) {
      var j :| IsProvides(n.edges, needle, j);
      assert n.edges[j].kind == Provides;
    }
  }

  // ---- when a dependency is met ----

  /** An edge is satisfied by the tables exactly if the alternative it was made from is met by the file. */
  lemma SameMet(ss: seq<Stanza>, t: Slots, pk: Packages, st: Statuses, fs: seq<seq<Field>>, src: seq<Stanza>,
                e: Edge, a: Alt, kind: EdgeType)
    requires Holding(ss, t, pk, st, fs, src) && EdgeFor(t, e, a, kind)
    ensures Satisfied(t, pk, st, e) <==> AltMet(ss, a, kind)
  {
    hide Holding, Provided, SomeFits, Good, NameGood, Offers, Current, StanzaProvides;
    SameOffer(ss, t, pk, st, fs, src, e, a, kind);
    SameProvided(ss, t, pk, st, fs, src, e, a, kind);
    if k: nat :| Offers(ss, k, a) {
      OffersName(ss, k, a);
      SameGood(ss, t, pk, st, fs, src, k, kind);
    }
  }

  lemma OffersName(ss: seq<Stanza>, k: nat, a: Alt)
    requires Offers(ss, k, a)
    ensures k < |ss| && Keeps(ss[k]) && NameOf(ss[k]) == a.name
  {
  }

  lemma SameOffer(ss: seq<Stanza>, t: Slots, pk: Packages, st: Statuses, fs: seq<seq<Field>>, src: seq<Stanza>,
                  e: Edge, a: Alt, kind: EdgeType)
    requires Holding(ss, t, pk, st, fs, src) && EdgeFor(t, e, a, kind)
    ensures SomeFits(t, pk, e.name, e.version, e.op) <==> exists k: nat :: Offers(ss, k, a)
  {
    hide Holding, Current, LastName, LastVersion, Holds, Keeps;
    if SomeFits(t, pk, e.name, e.version, e.op) {
      var i: nat :| i < PACKAGE_HASH_PRIME && i < |pk| && pk[i].Some? &&
        DpkgTables.Fits(t, pk[i].value, e.name, e.version, e.op);
      var k := SlotCurrent(ss, t, pk, st, fs, src, i);
      OfferIs(ss, k, a);
    }
    if k: nat :| Offers(ss, k, a) {
      OfferIs(ss, k, a);
      var i := CurrentSlot(ss, t, pk, st, fs, src, k);
      var k' := SlotCurrent(ss, t, pk, st, fs, src, i);
      HoldingTable(ss, t, pk, st, fs, src);
      OnePlace(t, NAME_HASH_PRIME, pk[i].value.name, e.name);
      assert DpkgTables.Fits(t, pk[i].value, e.name, e.version, e.op);
    }
  }

  lemma OfferIs(ss: seq<Stanza>, k: nat, a: Alt)
    ensures Offers(ss, k, a) <==>
      Current(ss, k) && k < |ss| && LastName(ss[k].entries).Some? && NameOf(ss[k]) == a.name &&
      Holds(LastVersion(ss[k].entries), a.version, a.op)
  {
    hide Holds, LastName, LastVersion;
  }

  lemma HoldingTable(ss: seq<Stanza>, t: Slots, pk: Packages, st: Statuses, fs: seq<seq<Field>>, src: seq<Stanza>)
    requires Holding(ss, t, pk, st, fs, src)
    ensures TableOk(t, NAME_HASH_PRIME) && |pk| == PACKAGE_HASH_PRIME + 1 && Sourced(t, pk, fs, src)
  {
    hide TableOk, HoldsPackages, HoldsLines, Sourced;
  }

  /** Package i provides the name and its status is good. */
  ghost predicate ProviderAt(t: Slots, pk: Packages, st: Statuses, e: Edge, i: int)
  {
    IsProvider(pk, i, e.name) && Good(t, pk, st, Str(t, pk[i].value.name), e.kind)
  }

  lemma ProviderSame(ss: seq<Stanza>, t: Slots, pk: Packages, st: Statuses, fs: seq<seq<Field>>, src: seq<Stanza>,
                     e: Edge, a: Alt, kind: EdgeType, i: nat, k: nat)
    requires Holding(ss, t, pk, st, fs, src) && EdgeFor(t, e, a, kind)
    requires i < PACKAGE_HASH_PRIME && i < |pk| && pk[i].Some? && Current(ss, k) && ss[k] == src[i]
    ensures ProviderAt(t, pk, st, e, i) <==> ProvidedBy(ss, a, kind, k)
  {
    hide Holding, Good, NameGood, StanzaProvides, DoesProvide, LastName, LastVersion, From;
    HoldingTable(ss, t, pk, st, fs, src);
    FromFacts(t, pk[i].value, fs[i], src[i]);
    ProvidesStanza(t, pk[i].value, fs[i], src[i], e.name);
    SameGood(ss, t, pk, st, fs, src, k, kind);
  }

  lemma SameProvided(ss: seq<Stanza>, t: Slots, pk: Packages, st: Statuses, fs: seq<seq<Field>>, src: seq<Stanza>,
                     e: Edge, a: Alt, kind: EdgeType)
    requires Holding(ss, t, pk, st, fs, src) && EdgeFor(t, e, a, kind)
    ensures Provided(t, pk, st, e) <==> exists k: nat :: ProvidedBy(ss, a, kind, k)
  {
    hide Holding, Good, NameGood, StanzaProvides, DoesProvide, LastName, LastVersion, Keeps, SamePackage;
    if Provided(t, pk, st, e) {
      var i :| IsProvider(pk, i, e.name) && Good(t, pk, st, Str(t, pk[i].value.name), e.kind);
      var k := SlotCurrent(ss, t, pk, st, fs, src, i);
      ProviderSame(ss, t, pk, st, fs, src, e, a, kind, i, k);
    }
    if k: nat :| ProvidedBy(ss, a, kind, k) {
      var i := CurrentSlot(ss, t, pk, st, fs, src, k);
      ProviderSame(ss, t, pk, st, fs, src, e, a, kind, i, k);
    }
  }

  // ---- when the groups of a package are met ----

  lemma MetConcat(t: Slots, pk: Packages, st: Statuses, a: seq<Field>, b: seq<Field>)
    ensures AllMet(t, pk, st, a + b) <==> AllMet(t, pk, st, a) && AllMet(t, pk, st, b)
  {
    hide Met;
    var c := a + b;
    if AllMet(t, pk, st, c) {
      forall i | 0 <= i < |a| ensures Met(t, pk, st, a[i]) { assert c[i] == a[i]; }
      forall i | 0 <= i < |b| ensures Met(t, pk, st, b[i]) { assert c[|a| + i] == b[i]; }
    }
  }

  /** A part that is its own first alternative has no other. */
  lemma OneToken(s: CString, d: byte)
    requires Tokens(s, d) != [] && Tokens(s, d)[0] == s
    ensures |Tokens(s, d)| == 1
  {
    var u: CString := s[While(s, [d])..];
    var n := Until(u, [d]);
    assert |u[..n]| == |s|;
    assert u[n..] == [] && Tokens(u[n..], d) == [];
  }

  lemma MetPart(ss: seq<Stanza>, t: Slots, pk: Packages, st: Statuses, fs: seq<seq<Field>>, src: seq<Stanza>,
                gs: seq<Field>, part: CString, kind: EdgeType, junk: Operator)
    requires Holding(ss, t, pk, st, fs, src) && PartFields(t, gs, part, kind, junk)
    ensures AllMet(t, pk, st, gs) <==> (IsDepend(kind) ==> PartMet(ss, part, kind, junk))
  {
    hide Holding, Satisfied, AltMet, ParseAlt, Tokens, Flatten;
    var alts := Tokens(Trim(part), BAR);
    if HasRoot(part, kind) {
      MetAlternatives(ss, t, pk, st, fs, src, gs[0].alts, part, kind, junk);
      assert gs == [gs[0]];
    } else if IsDepend(kind) {
      OneToken(Trim(part), BAR);
      assert gs == [gs[0]];
      FlatOne(gs[0]);
      MetAlternatives(ss, t, pk, st, fs, src, Flatten(gs), part, kind, junk);
      EdgeKinds(t, Flatten(gs), alts, kind, junk);
      assert Flatten(gs) == [gs[0].e];
    } else {
      OthersMet(t, pk, st, gs, part, kind, junk);
    }
  }

  /** Some edge for the alternatives is satisfied exactly if one of them is met. */
  lemma MetAlternatives(ss: seq<Stanza>, t: Slots, pk: Packages, st: Statuses, fs: seq<seq<Field>>, src: seq<Stanza>,
                        es: seq<Edge>, part: CString, kind: EdgeType, junk: Operator)
    requires Holding(ss, t, pk, st, fs, src) && EdgesFor(t, es, Tokens(Trim(part), BAR), kind, junk)
    ensures (exists j :: 0 <= j < |es| && Satisfied(t, pk, st, es[j])) <==> PartMet(ss, part, kind, junk)
  {
    hide Holding, Satisfied, AltMet, ParseAlt, Tokens, EdgeFor;
    var alts := Tokens(Trim(part), BAR);
    forall j | 0 <= j < |es|
      ensures Satisfied(t, pk, st, es[j]) <==> MeetsPart(ss, part, kind, junk, j)
    {
      SameMet(ss, t, pk, st, fs, src, es[j], ParseAlt(alts[j], junk).value, kind);
    }
    if PartMet(ss, part, kind, junk) {
      var j :| MeetsPart(ss, part, kind, junk, j);
      assert Satisfied(t, pk, st, es[j]);
    }
  }

  lemma OthersMet(t: Slots, pk: Packages, st: Statuses, gs: seq<Field>, part: CString, kind: EdgeType, junk: Operator)
    requires PartFields(t, gs, part, kind, junk) && !IsDepend(kind)
    ensures AllMet(t, pk, st, gs)
  {
    hide Satisfied, ParseAlt, Tokens, Flatten;
    EdgeKinds(t, Flatten(gs), Tokens(Trim(part), BAR), kind, junk);
    forall i | 0 <= i < |gs| ensures Met(t, pk, st, gs[i]) {
      var j := EdgeOfField(gs, i);
      assert FieldOk(gs[i]);
    }
  }

  lemma {:induction false} EdgeOfField(gs: seq<Field>, i: nat) returns (j: nat)
    requires i < |gs| && !gs[i].Choice?
    ensures j < |Flatten(gs)| && Flatten(gs)[j] == gs[i].e
    decreases |gs|
  {
    if i == 0 {
      j := 0;
    } else {
      j := EdgeOfField(gs[1..], i - 1);
      j := j + |Edges(gs[0])|;
    }
  }

  lemma {:induction false} MetParts(ss: seq<Stanza>, t: Slots, pk: Packages, st: Statuses, fs: seq<seq<Field>>,
                                    src: seq<Stanza>, per: seq<seq<Field>>, parts: seq<CString>, kind: EdgeType,
                                    junk: Operator)
    requires Holding(ss, t, pk, st, fs, src) && AllParts(t, per, parts, kind, junk)
    ensures AllMet(t, pk, st, Concat(per)) <==>
      (IsDepend(kind) ==> forall i :: 0 <= i < |per| ==> PartMet(ss, parts[i], kind, junk))
    decreases |per|
  {
    hide Holding, Met, PartFields, PartMet;
    if per != [] {
      var n := |per| - 1;
      MetParts(ss, t, pk, st, fs, src, per[..n], parts, kind, junk);
      MetPart(ss, t, pk, st, fs, src, per[n], parts[n], kind, junk);
      MetConcat(t, pk, st, Concat(per[..n]), per[n]);
    }
  }

  lemma MetEntry(ss: seq<Stanza>, t: Slots, pk: Packages, st: Statuses, fs: seq<seq<Field>>, src: seq<Stanza>,
                 gs: seq<Field>, e: Entry, junk: Operator)
    requires Holding(ss, t, pk, st, fs, src) && EntryFields(t, gs, e, junk)
    ensures AllMet(t, pk, st, gs) <==> EntryMet(ss, e, junk)
  {
    hide Holding, Met, PartMet, Tokens, AllParts;
    if e.Relation? {
      var parts := Tokens(e.value, COMMA);
      var per :| |per| == |parts| && AllParts(t, per, parts, e.kind, junk) && gs == Concat(per);
      MetParts(ss, t, pk, st, fs, src, per, parts, e.kind, junk);
    }
  }

  lemma {:induction false} MetEntries(ss: seq<Stanza>, t: Slots, pk: Packages, st: Statuses, fs: seq<seq<Field>>,
                                      src: seq<Stanza>, gs: seq<seq<Field>>, es: seq<Entry>, junk: Operator)
    requires Holding(ss, t, pk, st, fs, src) && |gs| <= |es|
    requires forall i :: 0 <= i < |gs| ==> EntryFields(t, gs[i], es[i], junk)
    ensures AllMet(t, pk, st, Concat(gs)) <==> forall i :: 0 <= i < |gs| ==> EntryMet(ss, es[i], junk)
    decreases |gs|
  {
    hide Holding, Met, EntryFields, EntryMet;
    if gs != [] {
      var n := |gs| - 1;
      MetEntries(ss, t, pk, st, fs, src, gs[..n], es, junk);
      MetEntry(ss, t, pk, st, fs, src, gs[n], es[n], junk);
      MetConcat(t, pk, st, Concat(gs[..n]), gs[n]);
    }
  }

  /** The groups of a package are met in the tables exactly if its stanza's dependencies are met by the file. */
  lemma MetStanza(ss: seq<Stanza>, t: Slots, pk: Packages, st: Statuses, fs: seq<seq<Field>>, src: seq<Stanza>, i: nat)
    requires Holding(ss, t, pk, st, fs, src) && i < PACKAGE_HASH_PRIME && pk[i].Some?
    ensures AllMet(t, pk, st, fs[i]) <==> StanzaMet(ss, src[i])
  {
    hide Holding, AllMet, EntryMet, EntryFields, LastName, LastVersion, Flatten, Concat;
    HoldingTable(ss, t, pk, st, fs, src);
    assert From(t, pk[i].value, fs[i], src[i]);
    var gs :| NodeFor(t, pk[i].value, gs, src[i].entries, src[i].junk) && fs[i] == Concat(gs);
    MetEntries(ss, t, pk, st, fs, src, gs, src[i].entries, src[i].junk);
  }

  /** A package is wanted exactly if the last status line of its name starts with "install". */
  lemma WantedStanza(ss: seq<Stanza>, t: Slots, pk: Packages, st: Statuses, fs: seq<seq<Field>>, src: seq<Stanza>,
                     i: nat, k: nat)
    requires Holding(ss, t, pk, st, fs, src) && i < PACKAGE_HASH_PRIME && i < |pk| && pk[i].Some?
    requires Current(ss, k) && ss[k] == src[i]
    ensures Wanted(t, pk, st, i) <==> ToInstall(ss, k)
  {
    hide Holding, HasWord, NameGood, LastName, LastVersion, From;
    HoldingTable(ss, t, pk, st, fs, src);
    FromFacts(t, pk[i].value, fs[i], src[i]);
    SameGood(ss, t, pk, st, fs, src, k, Depends);
  }

  /** What the dependency phase decides is what the file says. */
  lemma TablesDecide(ss: seq<Stanza>, t: Slots, pk: Packages, st: Statuses, fs: seq<seq<Field>>, src: seq<Stanza>)
    requires Holding(ss, t, pk, st, fs, src)
    ensures (forall i :: 0 <= i < PACKAGE_HASH_PRIME && Wanted(t, pk, st, i) ==> AllMet(t, pk, st, fs[i])) <==>
      FileMet(ss)
  {
    hide Holding, AllMet, StanzaMet, NameGood, HasWord, Keeps, SamePackage, LastName, LastVersion;
    HoldingTable(ss, t, pk, st, fs, src);
    if FileMet(ss) {
      forall i | 0 <= i < PACKAGE_HASH_PRIME && Wanted(t, pk, st, i) ensures AllMet(t, pk, st, fs[i]) {
        var k := SlotCurrent(ss, t, pk, st, fs, src, i);
        WantedStanza(ss, t, pk, st, fs, src, i, k);
        MetStanza(ss, t, pk, st, fs, src, i);
      }
    }
    if forall i :: 0 <= i < PACKAGE_HASH_PRIME && Wanted(t, pk, st, i) ==> AllMet(t, pk, st, fs[i]) {
      forall k: nat | k < |ss| && ToInstall(ss, k) ensures StanzaMet(ss, ss[k]) {
        var i := CurrentSlot(ss, t, pk, st, fs, src, k);
        WantedStanza(ss, t, pk, st, fs, src, i, k);
        MetStanza(ss, t, pk, st, fs, src, i);
      }
    }
  }

  // ---- a whole status file ----

  ghost predicate StanzasOk(ss: seq<Stanza>)
  {
    forall i :: 0 <= i < |ss| ==> StanzaOk(ss[i])
  }

  /** The strings that a stanza interns, and the words of its status line that check_deps interns. */
  ghost function StanzaNames(s: Stanza): (ks: set<CString>)
    requires StanzaOk(s)
  {
    EntriesNames(s.entries, s.junk) + if Keeps(s) then {s.status, Word(s.status, 1), Word(s.status, 3)} else {}
  }

  /** The strings of all stanzas up to the first illegal one. */
  ghost function FileNames(ss: seq<Stanza>): (ks: set<CString>)
    requires StanzasOk(ss)
    decreases |ss|
  {
    if ss == [] then {UNKNOWN, INSTALL, INSTALLED} else
    StanzaNames(ss[0]) + if LegalStanza(ss[0]) then FileNames(ss[1..]) else {UNKNOWN, INSTALL, INSTALLED}
  }

  /** The packages that the file describes. */
  ghost function FilePairs(ss: seq<Stanza>): (qs: set<Pair>)
  {
    set s | s in ss && Keeps(s) :: (LastName(s.entries).value, LastVersion(s.entries))
  }

  ghost function FilePackages(ss: seq<Stanza>): (ps: set<CString>)
  {
    set s | s in ss && Keeps(s) :: LastName(s.entries).value
  }

  /** The words that check_deps takes from status lines are among ks. */
  ghost predicate LinesCovered(ls: set<CString>, ks: set<CString>)
  {
    forall l :: l in ls ==> Word(l, 1) in ks && Word(l, 3) in ks
  }

  lemma StanzaCovered(ss: seq<Stanza>, i: nat, ks: set<CString>, qs: set<Pair>, ps: set<CString>)
    requires StanzasOk(ss) && i < |ss| && FileNames(ss[i..]) <= ks && FilePairs(ss) <= qs && FilePackages(ss) <= ps
    ensures Covered(ss[i], ks, qs, ps)
    ensures LegalStanza(ss[i]) ==> FileNames(ss[i + 1..]) <= ks
    ensures Keeps(ss[i]) ==> Word(ss[i].status, 1) in ks && Word(ss[i].status, 3) in ks
  {
    hide EntriesNames, LastName, LastVersion, Word, LegalStanza;
    assert ss[i..][0] == ss[i] && ss[i..][1..] == ss[i + 1..];
    HasConstants(ss[i..]);
    if Keeps(ss[i]) {
      assert (LastName(ss[i].entries).value, LastVersion(ss[i].entries)) in FilePairs(ss);
      assert LastName(ss[i].entries).value in FilePackages(ss);
    }
  }

  lemma {:induction false} HasConstants(ss: seq<Stanza>)
    requires StanzasOk(ss)
    ensures {UNKNOWN, INSTALL, INSTALLED} <= FileNames(ss)
    decreases |ss|
  {
    hide StanzaNames, LegalStanza;
    if ss != [] { HasConstants(ss[1..]); }
  }

  /** index_status_file: the tables then hold what the stanzas read before and these say together. */
  method IndexAll(db: Database, ss: seq<Stanza>, ghost ks: set<CString>, ghost qs: set<Pair>, ghost ps: set<CString>)
    returns (ok: bool)
    requires db.Valid() && db.Fits(ks, qs, ps) && StanzasOk(ss) && LinesCovered(db.ls, ks)
    requires FileNames(ss) <= ks && FilePairs(ss) <= qs && FilePackages(ss) <= ps
    modifies db`fs, db`src, db`ls, db`seen, db.table.slots, db.pk, db.st
    ensures ok == forall i :: 0 <= i < |ss| ==> LegalStanza(ss[i])
    ensures ok ==> db.Valid() && db.Fits(ks, qs, ps) && LinesCovered(db.ls, ks) && db.seen == old(db.seen) + ss
  {
    hide Tables, Fitting, FileNames, FilePairs, FilePackages, Covered, LegalStanza, Grows, Keeps, Word, TableOk,
      HoldsPackages, HoldsLines;
    assert ss[0..] == ss && ss[..0] == [];
    var i := 0;
    while i < |ss|
      invariant 0 <= i <= |ss| && db.Valid() && db.Fits(ks, qs, ps) && StanzasOk(ss[i..]) && FileNames(ss[i..]) <= ks
      invariant LinesCovered(db.ls, ks) && forall k :: 0 <= k < i ==> LegalStanza(ss[k])
      invariant db.seen == old(db.seen) + ss[..i]
    {
      StanzaCovered(ss, i, ks, qs, ps);
      var legal := db.Index(ss[i], ks, qs, ps);
      if !legal { return false; }
      assert ss[..i + 1] == ss[..i] + [ss[i]];
      i := i + 1;
    }
    assert ss[..i] == ss;
    return true;
  }

  /** From empty tables through a whole status file to the end of the dependency phase. None where a relation is
      illegal; otherwise the answer is what the text of the file says. */
  method CheckStatusFile(ss: seq<Stanza>) returns (db: Database, r: Option<bool>, ghost ns: Slots)
    requires StanzasOk(ss) && |FileNames(ss)| <= NAME_HASH_PRIME
    requires |FilePairs(ss)| < PACKAGE_HASH_PRIME && |FilePackages(ss)| < STATUS_HASH_PRIME
    ensures r.Some? == forall i :: 0 <= i < |ss| ==> LegalStanza(ss[i])
    ensures r.Some? ==> r.value == FileMet(ss)
    ensures r.Some? ==> Holding(ss, ns, db.pk[..], db.st[..], db.fs, db.src) && Grows(ns, db.table.slots[..])
  {
    hide Tables, Fitting, FileNames, FilePairs, FilePackages, LegalStanza, Grows, Wanted, AllMet, Db, LaidOut,
      Sourced, TableOk, Room, HoldsPackages, HoldsLines, FileMet, StatusOk;
    db := new Database();
    ghost var ks, qs, ps := FileNames(ss), FilePairs(ss), FilePackages(ss);
    assert db.Fits(ks, qs, ps) && LinesCovered(db.ls, ks);
    var ok := IndexAll(db, ss, ks, qs, ps);
    ns := db.table.slots[..];
    if !ok { return db, None, ns; }
    assert db.seen == ss;
    HasConstants(ss);
    ReadyToCheck(ns, db.pk[..], db.st[..], db.fs, db.src, db.ls, ks, qs, ps);
    var met := CheckDependencies(db.table, db.pk, db.st, db.fs);
    TablesDecide(ss, ns, db.pk[..], db.st[..], db.fs, db.src);
    return db, Some(met), ns;
  }

  lemma ReadyToCheck(t: Slots, pk: Packages, st: Statuses, fs: seq<seq<Field>>, src: seq<Stanza>, ls: set<CString>,
                     ks: set<CString>, qs: set<Pair>, ps: set<CString>)
    requires Tables(t, pk, st, fs, src, ls) && Fitting(t, pk, st, ks, qs, ps) && LinesCovered(ls, ks) &&
      INSTALL in ks && INSTALLED in ks
    ensures Db(t, pk, st) && LaidOut(pk, fs) && StatusOk(t, pk, st) && Sourced(t, pk, fs, src) &&
      Room(t, NAME_HASH_PRIME, StatusWords(t, st), 0)
  {
    hide StatusOk, Sourced, Word, Free, View, InUse;
    FreeRoom(pk);
    SourcedLaidOut(t, pk, fs, src);
    assert StatusWords(t, st) <= ks;
    RoomFewer(t, NAME_HASH_PRIME, ks, StatusWords(t, st), 0);
  }
}
