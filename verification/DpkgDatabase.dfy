/** The three tables of dpkg.c together: index_status_file fills them from empty, check_deps reads them. */
module DpkgDatabase {
  import opened Bits
  import opened DpkgHash
  import opened DpkgVersion
  import opened DpkgTables
  import opened DpkgDeps
  import opened DpkgSplit
  import opened DpkgIndex

  // ---- room in the package table ----

  /** A package name and a version. */
  type Pair = (CString, CString)

  ghost predicate IsAt(names: Slots, pk: Packages, q: Pair, i: nat)
  {
    i < PACKAGE_HASH_PRIME && i < |pk| && pk[i].Some? && Str(names, pk[i].value.name) == q.0 &&
    Holds(Str(names, pk[i].value.version), q.1, Equal)
  }

  /** A package of that name and an equal version is stored. */
  ghost predicate Has(names: Slots, pk: Packages, q: Pair)
  {
    exists i: nat :: IsAt(names, pk, q, i)
  }

  /** Which slots of the package table are in use. */
  ghost function InUse(pk: Packages): (t: Slots)
    ensures |t| == |pk| && forall i :: 0 <= i < |pk| ==> (t[i].None? <==> pk[i].None?)
  {
    seq(|pk|, i requires 0 <= i < |pk| => if pk[i].Some? then Some([]) else None)
  }

  ghost function Absent(names: Slots, pk: Packages, qs: set<Pair>): (m: set<Pair>)
  {
    set q | q in qs && !Has(names, pk, q)
  }

  /** There is a free slot for each package of qs that is not stored, and spare slots beside them. */
  ghost predicate PackageRoom(names: Slots, pk: Packages, qs: set<Pair>, spare: nat)
  {
    PACKAGE_HASH_PRIME <= |pk| && |Absent(names, pk, qs)| + spare <= Free(InUse(pk), PACKAGE_HASH_PRIME)
  }

  ghost function PairOf(names: Slots, n: Node): (q: Pair)
  {
    (Str(names, n.name), Str(names, n.version))
  }

  /** Equal names have equal indices, so the search by index finds what is stored. */
  lemma HasFits(names: Slots, pk: Packages, n: Node)
    requires PackagesOk(names, pk) && NodeOk(names, n) && Has(names, pk, PairOf(names, n))
    ensures SomeFits(names, pk, n.name, n.version, Equal)
  {
    hide TableOk, Findable, Holds;
    var i: nat :| IsAt(names, pk, PairOf(names, n), i);
    assert NodeOk(names, pk[i].value);
    OnePlace(names, NAME_HASH_PRIME, pk[i].value.name, n.name);
    assert Fits(names, pk[i].value, n.name, n.version, Equal);
  }

  lemma FreeRoom(pk: Packages)
    requires PACKAGE_HASH_PRIME <= |pk| && Free(InUse(pk), PACKAGE_HASH_PRIME) >= 1
    ensures HasRoom(pk)
  {
    var i := FreeSlot(InUse(pk), PACKAGE_HASH_PRIME);
  }

  lemma PackageEnds(names: Slots, pk: Packages, qs: set<Pair>, spare: nat, n: Node)
    requires PackageRoom(names, pk, qs, spare) && PackagesOk(names, pk) && NodeOk(names, n) && PairOf(names, n) in qs
    ensures HasRoom(pk) || SomeFits(names, pk, n.name, n.version, Equal)
  {
    hide PackagesOk, NodeOk, Has, PairOf, Free, HasRoom, SomeFits;
    if Has(names, pk, PairOf(names, n)) {
      HasFits(names, pk, n);
    } else {
      assert PairOf(names, n) in Absent(names, pk, qs);
      FreeRoom(pk);
    }
  }

  /** Storing a package, or replacing one of the same name and an equal version, loses no package. */
  lemma StillHas(names: Slots, pk: Packages, num: nat, n: Node, q: Pair)
    requires num < PACKAGE_HASH_PRIME && num < |pk| &&
      (pk[num].Some? ==> Fits(names, pk[num].value, n.name, n.version, Equal))
    requires Has(names, pk, q)
    ensures Has(names, pk[num := Some(n)], q)
  {
    hide Holds;
    var i: nat :| IsAt(names, pk, q, i);
    var pk' := pk[num := Some(n)];
    if i == num {
      var a, b := Str(names, pk[num].value.version), Str(names, n.version);
      RelationsConsistent(a, b);
      assert Holds(b, a, Equal) == Holds(a, b, Converse(Equal));
      RelationsCompose(b, a, q.1);
    }
    assert IsAt(names, pk', q, i);
  }

  lemma NowHas(names: Slots, pk: Packages, num: nat, n: Node)
    requires num < PACKAGE_HASH_PRIME && num < |pk|
    ensures Has(names, pk[num := Some(n)], PairOf(names, n))
  {
    hide CompareVersions;
    VersionsRefl(Str(names, n.version));
    assert IsAt(names, pk[num := Some(n)], PairOf(names, n), num);
  }

  lemma {:induction false} FreeAgrees(t: Slots, t': Slots, n: nat)
    requires n <= |t| && n <= |t'| && forall i :: 0 <= i < n ==> (t[i].None? <==> t'[i].None?)
    ensures Free(t, n) == Free(t', n)
  {
    if n > 0 { FreeAgrees(t, t', n - 1); }
  }

  lemma InUseFilled(pk: Packages, num: nat, n: Node)
    requires num < PACKAGE_HASH_PRIME <= |pk|
    ensures Free(InUse(pk[num := Some(n)]), PACKAGE_HASH_PRIME)
            == Free(InUse(pk), PACKAGE_HASH_PRIME) - if pk[num].None? then 1 else 0
  {
    hide Free;
    if pk[num].None? {
      var x: CString := [];
      FreeFilled(InUse(pk), PACKAGE_HASH_PRIME, num, x);
      FreeAgrees(InUse(pk[num := Some(n)]), InUse(pk)[num := Some(x)], PACKAGE_HASH_PRIME);
    } else {
      FreeAgrees(InUse(pk[num := Some(n)]), InUse(pk), PACKAGE_HASH_PRIME);
    }
  }

  lemma PackageStep(names: Slots, pk: Packages, qs: set<Pair>, spare: nat, num: nat, n: Node)
    requires PackageRoom(names, pk, qs, spare) && PackagesOk(names, pk) && NodeOk(names, n) && PairOf(names, n) in qs
    requires num < PACKAGE_HASH_PRIME && num < |pk| &&
      (pk[num].Some? ==> Fits(names, pk[num].value, n.name, n.version, Equal))
    requires pk[num].None? ==> !SomeFits(names, pk, n.name, n.version, Equal)
    ensures PackageRoom(names, pk[num := Some(n)], qs, spare)
  {
    hide PackagesOk, NodeOk, Has, PairOf, Free, SomeFits, Fits, InUse;
    var pk', q0 := pk[num := Some(n)], PairOf(names, n);
    InUseFilled(pk, num, n);
    NowHas(names, pk, num, n);
    forall q | q in qs && Has(names, pk, q) ensures Has(names, pk', q) { StillHas(names, pk, num, n, q); }
    if pk[num].None? && Has(names, pk, q0) { HasFits(names, pk, n); }
    var m, m' := Absent(names, pk, qs), Absent(names, pk', qs);
    if pk[num].None? {
      Smaller(m', m - {q0});
    } else {
      Smaller(m', m);
    }
  }

  lemma Smaller<T>(a: set<T>, b: set<T>)
    requires a <= b
    ensures |a| <= |b|
  {
    assert b == a + (b - a);
  }

  lemma PackageRoomGrows(t: Slots, t': Slots, pk: Packages, qs: set<Pair>, spare: nat)
    requires PackageRoom(t, pk, qs, spare) && PackagesOk(t, pk) && Grows(t, t')
    ensures PackageRoom(t', pk, qs, spare)
  {
    hide PackagesOk, Free, Has, Grows;
    forall q | q in qs ensures Has(t', pk, q) == Has(t, pk, q) { HasGrows(t, t', pk, q); }
    assert Absent(t', pk, qs) == Absent(t, pk, qs);
  }

  lemma HasGrows(t: Slots, t': Slots, pk: Packages, q: Pair)
    requires PackagesOk(t, pk) && Grows(t, t')
    ensures Has(t', pk, q) == Has(t, pk, q)
  {
    hide PackagesOk, Grows, Str, Holds;
    PackagesFacts(t, pk);
    forall i: nat | i < PACKAGE_HASH_PRIME && pk[i].Some? ensures IsAt(t', pk, q, i) == IsAt(t, pk, q, i) {
      PackageName(t, pk, i);
      NodeGrows(t, t', pk[i].value);
    }
  }

  // ---- room in a table that is seen through others ----

  lemma RoomSame(t: Slots, t': Slots, p: nat, ks: set<CString>, spare: nat)
    requires Room(t, p, ks, spare) && p <= |t'| && forall i :: 0 <= i < p ==> t'[i] == t[i]
    ensures Room(t', p, ks, spare)
  {
    FreeAgrees(t, t', p);
    forall k | k in ks && Stored(t, p, k) ensures Stored(t', p, k) {
      var i: nat :| i < p && i < |t| && t[i] == Some(k);
      assert t'[i] == Some(k);
    }
    Smaller(Missing(t', p, ks), Missing(t, p, ks));
  }

  lemma RoomFewer(t: Slots, p: nat, ks: set<CString>, ks': set<CString>, spare: nat)
    requires Room(t, p, ks, spare) && ks' <= ks
    ensures Room(t, p, ks', spare)
  {
    hide Stored, Free;
    Smaller(Missing(t, p, ks'), Missing(t, p, ks));
  }

  // ---- the tables and where their contents come from ----

  ghost predicate LegalStanza(s: Stanza)
  {
    forall i :: 0 <= i < |s.entries| ==> LegalEntry(s.entries[i], s.junk)
  }

  /** A stanza whose relations can be split, and which names its package if it has a version. */
  ghost predicate StanzaOk(s: Stanza)
  {
    EntriesOk(s.entries) && (LastVersion(s.entries) != UNKNOWN ==> LastName(s.entries).Some?)
  }

  /** The stanza describes a package that is stored. */
  ghost predicate Keeps(s: Stanza)
  {
    LegalStanza(s) && LastVersion(s.entries) != UNKNOWN && LastName(s.entries).Some?
  }

  /** The package and its groups of dependencies are those of the stanza. */
  ghost predicate From(t: Slots, n: Node, fs: seq<Field>, s: Stanza)
  {
    LastName(s.entries).Some? && exists gs :: NodeFor(t, n, gs, s.entries, s.junk) && fs == Concat(gs)
  }

  ghost predicate Sourced(t: Slots, pk: Packages, fs: seq<seq<Field>>, src: seq<Stanza>)
  {
    |fs| == |src| == PACKAGE_HASH_PRIME <= |pk| &&
    forall i :: 0 <= i < PACKAGE_HASH_PRIME && pk[i].Some? ==> From(t, pk[i].value, fs[i], src[i])
  }

  lemma FromFacts(t: Slots, n: Node, fs: seq<Field>, s: Stanza)
    requires From(t, n, fs, s)
    ensures NodeOk(t, n) && n.edges == Flatten(fs) && forall k :: 0 <= k < |fs| ==> FieldOk(fs[k])
    ensures LastName(s.entries).Some? && PairOf(t, n) == (LastName(s.entries).value, LastVersion(s.entries))
  {
    hide EntryFields, Concat, Flatten, FieldOk, LastName, LastVersion;
    var gs :| NodeFor(t, n, gs, s.entries, s.junk) && fs == Concat(gs);
    FieldsLaidOut(t, gs, s.entries, s.junk);
  }

  lemma FromGrows(t: Slots, t': Slots, n: Node, fs: seq<Field>, s: Stanza)
    requires From(t, n, fs, s) && Grows(t, t')
    ensures From(t', n, fs, s)
  {
    hide NodeFor, Concat, LastName, Grows;
    var gs :| NodeFor(t, n, gs, s.entries, s.junk) && fs == Concat(gs);
    NodeForGrows(t, t', n, gs, s.entries, s.junk);
  }

  lemma SourcedGrows(t: Slots, t': Slots, pk: Packages, fs: seq<seq<Field>>, src: seq<Stanza>)
    requires Sourced(t, pk, fs, src) && Grows(t, t')
    ensures Sourced(t', pk, fs, src)
  {
    hide From, Grows;
    forall i | 0 <= i < PACKAGE_HASH_PRIME && pk[i].Some? ensures From(t', pk[i].value, fs[i], src[i]) {
      FromGrows(t, t', pk[i].value, fs[i], src[i]);
    }
  }

  /** Packages that come from stanzas are laid out for check_deps. */
  lemma SourcedLaidOut(t: Slots, pk: Packages, fs: seq<seq<Field>>, src: seq<Stanza>)
    requires Sourced(t, pk, fs, src)
    ensures LaidOut(pk, fs)
  {
    hide From, Flatten, FieldOk;
    forall i | 0 <= i < PACKAGE_HASH_PRIME && pk[i].Some?
      ensures pk[i].value.edges == Flatten(fs[i]) && forall k :: 0 <= k < |fs[i]| ==> FieldOk(fs[i][k])
    {
      FromFacts(t, pk[i].value, fs[i], src[i]);
    }
  }

  /** There is room in all tables for the strings ks, the packages qs and the statuses of the names ps. */
  ghost predicate Fitting(t: Slots, pk: Packages, st: Statuses, ks: set<CString>, qs: set<Pair>, ps: set<CString>)
  {
    Room(t, NAME_HASH_PRIME, ks, 0) && PackageRoom(t, pk, qs, 1) && Room(View(t, pk, st), STATUS_HASH_PRIME, ps, 1)
  }

  /** What the stanza needs is among the strings, packages and names for which there is room. */
  ghost predicate Covered(s: Stanza, ks: set<CString>, qs: set<Pair>, ps: set<CString>)
    requires StanzaOk(s)
  {
    UNKNOWN in ks && EntriesNames(s.entries, s.junk) <= ks &&
    (Keeps(s) ==>
      s.status in ks && (LastName(s.entries).value, LastVersion(s.entries)) in qs && LastName(s.entries).value in ps)
  }

  /** Every status line is one of ls. */
  ghost predicate StatusFrom(t: Slots, st: Statuses, ls: set<CString>)
  {
    forall i: nat :: i < |st| && st[i].Some? ==> IsName(t, st[i].value.status) && Str(t, st[i].value.status) in ls
  }

  lemma StatusFromGrows(t: Slots, t': Slots, st: Statuses, ls: set<CString>)
    requires StatusFrom(t, st, ls) && Grows(t, t')
    ensures StatusFrom(t', st, ls)
  {
    forall i: nat | i < |st| && st[i].Some?
      ensures IsName(t', st[i].value.status) && Str(t', st[i].value.status) in ls {
      StrGrows(t, t', st[i].value.status);
    }
  }

  /** All that is true of the tables between two stanzas. */
  ghost predicate Tables(t: Slots, pk: Packages, st: Statuses, fs: seq<seq<Field>>, src: seq<Stanza>, ls: set<CString>)
  {
    StatusOk(t, pk, st) && |st| == STATUS_HASH_PRIME + 1 && Sourced(t, pk, fs, src) && StatusFrom(t, st, ls)
  }

  /** More strings disturb neither the tables nor the room in them. */
  lemma TablesGrow(t: Slots, t': Slots, pk: Packages, st: Statuses, fs: seq<seq<Field>>, src: seq<Stanza>,
                   ls: set<CString>,
                   ks: set<CString>, qs: set<Pair>, ps: set<CString>)
    requires Tables(t, pk, st, fs, src, ls) && Fitting(t, pk, st, ks, qs, ps) && Grows(t, t') &&
      TableOk(t', NAME_HASH_PRIME)
    requires Room(t', NAME_HASH_PRIME, ks, 0)
    ensures Tables(t', pk, st, fs, src, ls) && Fitting(t', pk, st, ks, qs, ps)
  {
    hide StatusOk, Sourced, StatusFrom, Room, PackageRoom, Grows, TableOk;
    StatusGrows(t, t', pk, st);
    SourcedGrows(t, t', pk, fs, src);
    StatusFromGrows(t, t', st, ls);
    PackagesIn(t, pk, st);
    PackageRoomGrows(t, t', pk, qs, 1);
    RoomSame(View(t, pk, st), View(t', pk, st), STATUS_HASH_PRIME, ps, 1);
  }

  lemma PackagesIn(t: Slots, pk: Packages, st: Statuses)
    requires StatusOk(t, pk, st)
    ensures PackagesOk(t, pk)
  {
  }

  // ---- what the tables say about the stanzas read ----

  /** Two stanzas describe the same package: the name is the same and the versions are equal. */
  ghost predicate SamePackage(a: Stanza, b: Stanza)
  {
    LastName(a.entries) == LastName(b.entries) && Holds(LastVersion(a.entries), LastVersion(b.entries), Equal)
  }

  /** Stanza k is the last one for its package. */
  ghost predicate Current(ss: seq<Stanza>, k: nat)
  {
    k < |ss| && Keeps(ss[k]) && forall j :: k < j < |ss| && Keeps(ss[j]) ==> !SamePackage(ss[j], ss[k])
  }

  /** Stanza k is the last one of its name, whatever the version. */
  ghost predicate LastOfName(ss: seq<Stanza>, k: nat)
  {
    k < |ss| && Keeps(ss[k]) &&
    forall j :: k < j < |ss| && Keeps(ss[j]) ==> LastName(ss[j].entries) != LastName(ss[k].entries)
  }

  ghost predicate IsCurrent(ss: seq<Stanza>, s: Stanza)
  {
    exists k: nat :: CurrentAt(ss, k, s)
  }

  ghost predicate CurrentAt(ss: seq<Stanza>, k: nat, s: Stanza)
  {
    Current(ss, k) && ss[k] == s
  }

  /** Every package stored comes from the last stanza for it, no two are for the same package, and every stanza that
      describes a package has one. */
  ghost predicate HoldsPackages(ss: seq<Stanza>, pk: Packages, src: seq<Stanza>)
  {
    |src| == PACKAGE_HASH_PRIME <= |pk| &&
    (forall i :: 0 <= i < PACKAGE_HASH_PRIME && pk[i].Some? ==> Keeps(src[i]) && IsCurrent(ss, src[i])) &&
    (forall i, j :: 0 <= i < j < PACKAGE_HASH_PRIME && pk[i].Some? && pk[j].Some? ==> !SamePackage(src[i], src[j])) &&
    (forall k :: 0 <= k < |ss| && Keeps(ss[k]) ==> HasSlot(pk, src, ss[k]))
  }

  ghost predicate HasSlot(pk: Packages, src: seq<Stanza>, s: Stanza)
  {
    exists i :: IsSlot(pk, src, s, i)
  }

  /** Slot i holds the package of s. */
  ghost predicate IsSlot(pk: Packages, src: seq<Stanza>, s: Stanza, i: int)
  {
    0 <= i < PACKAGE_HASH_PRIME && i < |pk| && i < |src| && pk[i].Some? && SamePackage(src[i], s)
  }

  /** The package named key has the status line l. */
  ghost predicate StatusLineAt(t: Slots, pk: Packages, st: Statuses, key: CString, l: CString, r: nat)
  {
    StatusAt(t, pk, st, key, r) && Str(t, st[r].value.status) == l
  }

  ghost predicate HasStatus(t: Slots, pk: Packages, st: Statuses, key: CString, l: CString)
  {
    exists r: nat :: StatusLineAt(t, pk, st, key, l, r)
  }

  /** The status line of a name is that of the last stanza of the name. */
  ghost predicate HoldsLines(ss: seq<Stanza>, t: Slots, pk: Packages, st: Statuses)
  {
    forall k: nat :: k < |ss| ==> LineHeld(ss, k, t, pk, st)
  }

  ghost predicate LineHeld(ss: seq<Stanza>, k: nat, t: Slots, pk: Packages, st: Statuses)
  {
    LastOfName(ss, k) ==> HasStatus(t, pk, st, LastName(ss[k].entries).value, ss[k].status)
  }

  lemma SameTrans(a: Stanza, b: Stanza, c: Stanza)
    requires SamePackage(a, b) && SamePackage(b, c)
    ensures SamePackage(a, c)
  {
    hide Holds, LastName, LastVersion;
    RelationsCompose(LastVersion(a.entries), LastVersion(b.entries), LastVersion(c.entries));
  }

  lemma SameSym(a: Stanza, b: Stanza)
    ensures SamePackage(a, b) == SamePackage(b, a) && SamePackage(a, a)
  {
    hide CompareVersions, LastName, LastVersion;
    VersionsAnti(LastVersion(a.entries), LastVersion(b.entries));
    VersionsRefl(LastVersion(a.entries));
  }

  /** A stanza that describes no package changes neither. */
  lemma CurrentSkip(ss: seq<Stanza>, s: Stanza, k: nat)
    requires !Keeps(s)
    ensures Current(ss + [s], k) == Current(ss, k) && LastOfName(ss + [s], k) == LastOfName(ss, k)
  {
    hide Keeps, SamePackage, LastName;
    var ss' := ss + [s];
    if k < |ss| && Keeps(ss[k]) {
      assert forall j :: k < j < |ss'| && Keeps(ss'[j]) ==> j < |ss| && ss'[j] == ss[j];
      assert forall j :: k < j < |ss| ==> ss'[j] == ss[j];
    }
  }

  lemma PackagesSkip(ss: seq<Stanza>, pk: Packages, src: seq<Stanza>, s: Stanza)
    requires HoldsPackages(ss, pk, src) && !Keeps(s)
    ensures HoldsPackages(ss + [s], pk, src)
  {
    hide Keeps, SamePackage, HasSlot, CurrentAt, Current;
    forall i | 0 <= i < PACKAGE_HASH_PRIME && pk[i].Some? ensures IsCurrent(ss + [s], src[i]) {
      var k: nat :| CurrentAt(ss, k, src[i]);
      CurrentIn(ss, k, src[i]);
      CurrentSkip(ss, s, k);
      CurrentIs(ss + [s], k, src[i]);
    }
  }

  lemma CurrentIn(ss: seq<Stanza>, k: nat, s: Stanza)
    requires CurrentAt(ss, k, s)
    ensures k < |ss| && Keeps(s) && ss[k] == s && Current(ss, k)
  {
  }

  lemma CurrentIs(ss: seq<Stanza>, k: nat, s: Stanza)
    requires k < |ss| && ss[k] == s && Current(ss, k)
    ensures CurrentAt(ss, k, s)
  {
  }

  /** A new stanza is current, and the earlier ones stay so unless they are for its package. */
  lemma CurrentPush(ss: seq<Stanza>, s: Stanza, k: nat)
    requires Keeps(s)
    ensures Current(ss + [s], |ss|) && LastOfName(ss + [s], |ss|)
    ensures Current(ss, k) && !SamePackage(s, ss[k]) ==> Current(ss + [s], k)
    ensures k < |ss| && LastOfName(ss + [s], k) ==>
      LastOfName(ss, k) && LastName(ss[k].entries) != LastName(s.entries)
  {
    hide Keeps, SamePackage, LastName;
    var ss' := ss + [s];
    assert forall j :: 0 <= j < |ss| ==> ss'[j] == ss[j];
    if k < |ss| && LastOfName(ss', k) {
      assert ss'[|ss|] == s;
      forall j | k < j < |ss| && Keeps(ss[j]) ensures LastName(ss[j].entries) != LastName(ss[k].entries) {
        assert ss'[j] == ss[j];
      }
    }
  }

  /** A package is stored for the new stanza where one for the same package was, or where none was if there was none. */
  lemma PackagesPush(ss: seq<Stanza>, pk: Packages, src: seq<Stanza>, s: Stanza, num: nat, n: Node)
    requires HoldsPackages(ss, pk, src) && Keeps(s) && num < PACKAGE_HASH_PRIME
    requires pk[num].Some? ==> SamePackage(src[num], s)
    requires pk[num].None? ==> !HasSlot(pk, src, s)
    ensures HoldsPackages(ss + [s], pk[num := Some(n)], src[num := s])
  {
    hide Keeps, SamePackage, CurrentAt, Current;
    var ss', pk', src' := ss + [s], pk[num := Some(n)], src[num := s];
    SameSym(s, s);
    forall i | 0 <= i < PACKAGE_HASH_PRIME && i != num && pk[i].Some?
      ensures !SamePackage(src[i], s) && !SamePackage(s, src[i])
    {
      SameSym(src[i], s);
      if pk[num].None? {
        assert !IsSlot(pk, src, s, i);
      } else if SamePackage(src[i], s) {
        SameSym(src[num], s);
        SameSym(src[i], src[num]);
        SameTrans(src[i], s, src[num]);
      }
    }
    forall i | 0 <= i < PACKAGE_HASH_PRIME && pk'[i].Some? ensures Keeps(src'[i]) && IsCurrent(ss', src'[i]) {
      if i == num {
        CurrentPush(ss, s, |ss|);
        CurrentIs(ss', |ss|, s);
      } else {
        var k: nat :| CurrentAt(ss, k, src[i]);
        CurrentIn(ss, k, src[i]);
        CurrentPush(ss, s, k);
        CurrentIs(ss', k, src[i]);
      }
    }
    forall k | 0 <= k < |ss'| && Keeps(ss'[k]) ensures HasSlot(pk', src', ss'[k]) {
      SlotPush(ss, pk, src, s, num, n, k);
    }
  }

  lemma SlotPush(ss: seq<Stanza>, pk: Packages, src: seq<Stanza>, s: Stanza, num: nat, n: Node, k: nat)
    requires HoldsPackages(ss, pk, src) && Keeps(s) && num < PACKAGE_HASH_PRIME
    requires pk[num].Some? ==> SamePackage(src[num], s)
    requires k <= |ss| && Keeps((ss + [s])[k])
    ensures HasSlot(pk[num := Some(n)], src[num := s], (ss + [s])[k])
  {
    hide Keeps, SamePackage, CurrentAt, Current;
    var pk', src' := pk[num := Some(n)], src[num := s];
    SameSym(s, s);
    if k == |ss| {
      assert IsSlot(pk', src', s, num);
    } else {
      assert (ss + [s])[k] == ss[k] && HasSlot(pk, src, ss[k]);
      var i :| IsSlot(pk, src, ss[k], i);
      if i == num {
        SameSym(src[num], s);
        SameTrans(s, src[num], ss[k]);
      }
      assert IsSlot(pk', src', ss[k], i);
    }
  }

  /** The status lines of all names but key are kept. */
  ghost predicate LinesKept(t: Slots, pk: Packages, st: Statuses, t': Slots, pk': Packages, st': Statuses,
                            key: Option<CString>)
  {
    forall name, l :: Some(name) != key && HasStatus(t, pk, st, name, l) ==> HasStatus(t', pk', st', name, l)
  }

  lemma KeptTrans(t: Slots, pk: Packages, st: Statuses, t': Slots, pk': Packages, st': Statuses,
                  t'': Slots, pk'': Packages, st'': Statuses, key: Option<CString>)
    requires LinesKept(t, pk, st, t', pk', st', None) && LinesKept(t', pk', st', t'', pk'', st'', key)
    ensures LinesKept(t, pk, st, t'', pk'', st'', key)
  {
    hide HasStatus;
    forall name, l | Some(name) != key && HasStatus(t, pk, st, name, l) ensures HasStatus(t'', pk'', st'', name, l) {
      assert HasStatus(t', pk', st', name, l);
    }
  }

  /** A slot that holds a status holds the name of its package. */
  lemma KeptSlots(t: Slots, pk: Packages, st: Statuses, t': Slots, pk': Packages, key: Option<CString>)
    requires |st| >= STATUS_HASH_PRIME
    requires forall i :: 0 <= i < STATUS_HASH_PRIME ==> NameIn(t', pk', st[i]) == NameIn(t, pk, st[i])
    requires forall i :: 0 <= i < STATUS_HASH_PRIME && st[i].Some? ==>
      Str(t', st[i].value.status) == Str(t, st[i].value.status)
    ensures LinesKept(t, pk, st, t', pk', st, key)
  {
    hide Str, NameIn;
    forall name, l | HasStatus(t, pk, st, name, l) ensures HasStatus(t', pk', st, name, l) {
      var r: nat :| StatusLineAt(t, pk, st, name, l, r);
      assert StatusLineAt(t', pk', st, name, l, r);
    }
  }

  lemma KeptGrown(t: Slots, t': Slots, pk: Packages, st: Statuses)
    requires StatusOk(t, pk, st) && Grows(t, t') && TableOk(t', NAME_HASH_PRIME)
    ensures LinesKept(t, pk, st, t', pk, st, None)
  {
    hide TableOk, PackagesOk, View, LinesKept, Grows;
    StatusGrows(t, t', pk, st);
    TableSize(View(t, pk, st), STATUS_HASH_PRIME);
    forall i | 0 <= i < STATUS_HASH_PRIME && st[i].Some?
      ensures Str(t', st[i].value.status) == Str(t, st[i].value.status)
    {
      StrGrows(t, t', st[i].value.status);
    }
    forall i | 0 <= i < STATUS_HASH_PRIME ensures NameIn(t', pk, st[i]) == NameIn(t, pk, st[i]) {
      assert View(t', pk, st)[i] == View(t, pk, st)[i];
    }
    KeptSlots(t, pk, st, t', pk, None);
  }

  lemma LinesSkip(ss: seq<Stanza>, s: Stanza, t: Slots, pk: Packages, st: Statuses, t': Slots)
    requires HoldsLines(ss, t, pk, st) && !Keeps(s) && LinesKept(t, pk, st, t', pk, st, None)
    ensures HoldsLines(ss + [s], t', pk, st)
  {
    hide HasStatus, LastName;
    forall k: nat | k <= |ss| ensures LineHeld(ss + [s], k, t', pk, st) {
      if LastOfName(ss + [s], k) {
        CurrentSkip(ss, s, k);
        assert LineHeld(ss, k, t, pk, st) && (ss + [s])[k] == ss[k];
      }
    }
  }

  lemma LinesPush(ss: seq<Stanza>, s: Stanza, t: Slots, pk: Packages, st: Statuses, t': Slots, pk': Packages,
                  st': Statuses)
    requires HoldsLines(ss, t, pk, st) && Keeps(s) && LastName(s.entries).Some?
    requires LinesKept(t, pk, st, t', pk', st', LastName(s.entries))
    requires HasStatus(t', pk', st', LastName(s.entries).value, s.status)
    ensures HoldsLines(ss + [s], t', pk', st')
  {
    hide HasStatus, LastName;
    forall k: nat | k <= |ss| ensures LineHeld(ss + [s], k, t', pk', st') {
      if k < |ss| && LastOfName(ss + [s], k) {
        CurrentPush(ss, s, k);
        assert LineHeld(ss, k, t, pk, st) && (ss + [s])[k] == ss[k];
      }
    }
  }

  class Database {
    const table: NameTable
    const pk: array<Option<Node>>
    const st: array<Option<StatusNode>>
    ghost var fs: seq<seq<Field>>       // the groups of dependencies of each package
    ghost var src: seq<Stanza>          // the stanza each package was last filled from
    ghost var ls: set<CString>          // the status lines read so far
    ghost var seen: seq<Stanza>         // the stanzas read so far

    ghost predicate InOrder()
      reads this, table.slots, pk, st
    {
      Tables(table.slots[..], pk[..], st[..], fs, src, ls)
    }

    /** The tables are in order, and hold what the stanzas read so far say. */
    ghost predicate Valid()
      reads this, table.slots, pk, st
    {
      InOrder() && HoldsPackages(seen, pk[..], src) && HoldsLines(seen, table.slots[..], pk[..], st[..])
    }

    ghost predicate Fits(ks: set<CString>, qs: set<Pair>, ps: set<CString>)
      reads this, table.slots, pk, st
    {
      Fitting(table.slots[..], pk[..], st[..], ks, qs, ps)
    }

    /** Empty tables. */
    constructor ()
      ensures Valid() && fresh(table) && fresh(table.slots) && fresh(pk) && fresh(st) && ls == {} && seen == []
      ensures forall i :: 0 <= i < |pk[..]| ==> pk[i].None?
      ensures forall ks, qs, ps :: |ks| <= NAME_HASH_PRIME && |qs| < PACKAGE_HASH_PRIME && |ps| < STATUS_HASH_PRIME ==>
        Fits(ks, qs, ps)
    {
      table := new NameTable();
      pk := new Option<Node>[PACKAGE_HASH_PRIME + 1](_ => None);
      st := new Option<StatusNode>[STATUS_HASH_PRIME + 1](_ => None);
      fs, src, ls := seq(PACKAGE_HASH_PRIME, _ => []), seq(PACKAGE_HASH_PRIME, _ => Stanza([], Any, [])), {};
      seen := [];
      new;
      hide TableOk, Free, StatusOk, Fitting;
      EmptyTables(table.slots[..], pk[..], st[..]);
      forall ks, qs, ps | |ks| <= NAME_HASH_PRIME && |qs| < PACKAGE_HASH_PRIME && |ps| < STATUS_HASH_PRIME
        ensures Fitting(table.slots[..], pk[..], st[..], ks, qs, ps)
      {
        EmptyFits(table.slots[..], pk[..], st[..], ks, qs, ps);
      }
    }

    /** The body of the loop of index_status_file; false where the program ends with an error. */
    method Index(s: Stanza, ghost ks: set<CString>, ghost qs: set<Pair>, ghost ps: set<CString>)
      returns (ok: bool)
      requires Valid() && Fits(ks, qs, ps) && StanzaOk(s) && Covered(s, ks, qs, ps)
      modifies this`fs, this`src, this`ls, this`seen, table.slots, pk, st
      ensures table.Valid() && Grows(old(table.slots[..]), table.slots[..])
      ensures ok == LegalStanza(s)
      ensures ok ==> Valid() && Fits(ks, qs, ps) && seen == old(seen) + [s]
      ensures ok ==> ls == if Keeps(s) then old(ls) + {s.status} else old(ls)
      ensures ok && !Keeps(s) ==> pk[..] == old(pk[..]) && st[..] == old(st[..]) && fs == old(fs) && src == old(src)
    {
      hide Tables, Fitting, LegalEntry, EntriesNames, Room, TableOk, NodeFor, Grows, LastName, LastVersion,
        HoldsPackages, HoldsLines, LinesKept, HasStatus, SamePackage, HasSlot;
      ghost var t := table.slots[..];
      TablesTable(t, pk[..], st[..], fs, src, ls);
      FittingRoom(t, pk[..], st[..], ks, qs, ps);
      var node, gs := FillNode(table, s.entries, s.junk, ks);
      if node.None? { return false; }
      ghost var t1 := table.slots[..];
      TablesGrow(t, t1, pk[..], st[..], fs, src, ls, ks, qs, ps);
      var unknown := Intern(table, UNKNOWN, ks);
      ghost var t2 := table.slots[..];
      TablesGrow(t1, t2, pk[..], st[..], fs, src, ls, ks, qs, ps);
      GrowsTrans(t, t1, t2);
      TablesKept(t, t2, pk[..], st[..], fs, src, ls);
      NodeForGrows(t1, t2, node.value, gs, s.entries, s.junk);
      SameVersion(t2, node.value, gs, s.entries, s.junk, unknown);
      if node.value.version == unknown {
        PackagesSkip(seen, pk[..], src, s);
        LinesSkip(seen, s, t, pk[..], st[..], t2);
        seen := seen + [s];
        return true;
      }
      assert From(t2, node.value, Concat(gs), s);
      ls := ls + {s.status};
      MoreStatuses(t2, pk[..], st[..], fs, src, old(ls), ls);
      ghost var p0, s0 := pk[..], st[..];
      var num := Store(s, node.value, Concat(gs), ks, qs, ps);
      GrowsTrans(t, t2, table.slots[..]);
      KeptTrans(t, p0, s0, t2, p0, s0, table.slots[..], pk[..], st[..], LastName(s.entries));
      PackagesPush(seen, p0, old(src), s, num, node.value);
      LinesPush(seen, s, t, p0, s0, table.slots[..], pk[..], st[..]);
      seen := seen + [s];
      return true;
    }

    /** A filled node and its status line go into the tables: the node replaces that of the same package, or there is
        none, and the line replaces that of the same name. */
    method Store(s: Stanza, node: Node, ghost fields: seq<Field>, ghost ks: set<CString>, ghost qs: set<Pair>,
                 ghost ps: set<CString>)
      returns (num: nat)
      requires InOrder() && Fits(ks, qs, ps) && From(table.slots[..], node, fields, s)
      requires s.status in ks && s.status in ls
      requires LastName(s.entries).Some? && (LastName(s.entries).value, LastVersion(s.entries)) in qs &&
        LastName(s.entries).value in ps
      modifies this`fs, this`src, table.slots, pk, st
      ensures InOrder() && Fits(ks, qs, ps) && table.Valid() && Grows(old(table.slots[..]), table.slots[..])
      ensures num < PACKAGE_HASH_PRIME && num < |old(pk[..])| && pk[..] == old(pk[..])[num := Some(node)]
      ensures num < |old(src)| && src == old(src)[num := s]
      ensures old(pk[num]).Some? ==> SamePackage(old(src)[num], s)
      ensures old(pk[num]).None? ==> !HasSlot(old(pk[..]), old(src), s)
      ensures HasStatus(table.slots[..], pk[..], st[..], LastName(s.entries).value, s.status)
      ensures LinesKept(old(table.slots[..]), old(pk[..]), old(st[..]), table.slots[..], pk[..], st[..],
                        LastName(s.entries))
    {
      hide Tables, Fitting, From, Room, TableOk, Grows, LastName, LastVersion, LinesKept, HasStatus, SamePackage,
        HasSlot;
      ghost var t1, p0, s0 := table.slots[..], pk[..], st[..];
      num := StorePackage(s, node, fields, ks, qs, ps);
      TablesTable(t1, pk[..], st[..], fs, src, ls);
      FittingRoom(t1, pk[..], st[..], ks, qs, ps);
      var status := Intern(table, s.status, ks);
      ghost var t2 := table.slots[..];
      TablesKept(t1, t2, pk[..], st[..], fs, src, ls);
      KeptTrans(t1, p0, s0, t1, pk[..], s0, t2, pk[..], s0, None);
      TablesGrow(t1, t2, pk[..], st[..], fs, src, ls, ks, qs, ps);
      FromGrows(t1, t2, node, fields, s);
      StoreStatus(s, node, fields, num, status, ks, qs, ps);
      KeptTrans(t1, p0, s0, t2, pk[..], s0, t2, pk[..], st[..], LastName(s.entries));
    }

    method StorePackage(s: Stanza, node: Node, ghost fields: seq<Field>, ghost ks: set<CString>, ghost qs: set<Pair>,
                        ghost ps: set<CString>)
      returns (num: nat)
      requires InOrder() && Fits(ks, qs, ps) && From(table.slots[..], node, fields, s)
      requires LastName(s.entries).Some? && (LastName(s.entries).value, LastVersion(s.entries)) in qs
      modifies this`fs, this`src, pk
      ensures InOrder() && Fits(ks, qs, ps)
      ensures num < PACKAGE_HASH_PRIME && num < |old(pk[..])| && pk[..] == old(pk[..])[num := Some(node)]
      ensures num < |old(src)| && src == old(src)[num := s]
      ensures old(pk[num]).Some? ==> SamePackage(old(src)[num], s)
      ensures old(pk[num]).None? ==> !HasSlot(old(pk[..]), old(src), s)
      ensures LinesKept(table.slots[..], old(pk[..]), st[..], table.slots[..], pk[..], st[..], None)
    {
      hide Has, StatusOk, PackagesOk, Sourced, StatusFrom, Room, PackageRoom, From, LastName, LastVersion, SomeFits,
        HasRoom, DpkgTables.Fits, LinesKept, SamePackage, HasSlot;
      ghost var t, p0 := table.slots[..], pk[..];
      PackagesIn(t, p0, st[..]);
      FromFacts(t, node, fields, s);
      PackageEnds(t, p0, qs, 1, node);
      num := AddPackage(table.slots, pk, node);
      PackagesFacts(t, p0);
      PackageStep(t, p0, qs, 1, num, node);
      SourcedPut(t, p0, fs, src, num, node, fields, s);
      SlotFits(t, p0, fs, src, num, node, fields, s);
      StatusPut(t, p0, st[..], num, node, ps);
      fs, src := fs[num := fields], src[num := s];
    }

    method StoreStatus(s: Stanza, node: Node, ghost fields: seq<Field>, num: nat, status: nat,
                       ghost ks: set<CString>, ghost qs: set<Pair>, ghost ps: set<CString>)
      requires InOrder() && Fits(ks, qs, ps) && From(table.slots[..], node, fields, s)
      requires LastName(s.entries).Some? && LastName(s.entries).value in ps && s.status in ls
      requires num < PACKAGE_HASH_PRIME && num < pk.Length && pk[num] == Some(node)
      requires status < NAME_HASH_PRIME && status < table.slots.Length && table.slots[status] == Some(s.status)
      modifies st
      ensures InOrder() && Fits(ks, qs, ps) &&
        HasStatus(table.slots[..], pk[..], st[..], LastName(s.entries).value, s.status)
      ensures LinesKept(table.slots[..], pk[..], old(st[..]), table.slots[..], pk[..], st[..], LastName(s.entries))
    {
      hide StatusOk, PackagesOk, Sourced, StatusFrom, Room, PackageRoom, From, LastName, LastVersion, StatusEnds, View,
        Stored, LinesKept;
      ghost var t, p0, s0 := table.slots[..], pk[..], st[..];
      FromFacts(t, node, fields, s);
      ghost var key := LastName(s.entries).value;
      RoomForOne(View(t, p0, s0), STATUS_HASH_PRIME, ps, 1, key);
      EndsFor(t, p0, s0, key);
      var r := AddStatus(table.slots, pk, st, StatusNode(num, status));
      StatusFromPut(t, s0, ls, r, StatusNode(num, status));
      ViewRoom(View(t, p0, s0), r, key, ps);
      KeptPut(t, p0, s0, r, StatusNode(num, status), key);
      assert StatusLineAt(t, p0, st[..], key, s.status, r);
    }
  }

  // ---- steps of the methods above ----

  lemma EmptyFits(t: Slots, pk: Packages, st: Statuses, ks: set<CString>, qs: set<Pair>, ps: set<CString>)
    requires NAME_HASH_PRIME <= |t| && Free(t, NAME_HASH_PRIME) == NAME_HASH_PRIME && |ks| <= NAME_HASH_PRIME
    requires |pk| == PACKAGE_HASH_PRIME + 1 && (forall i :: 0 <= i < |pk| ==> pk[i].None?) && |qs| < PACKAGE_HASH_PRIME
    requires |st| >= STATUS_HASH_PRIME && Free(View(t, pk, st), STATUS_HASH_PRIME) == STATUS_HASH_PRIME &&
      |ps| < STATUS_HASH_PRIME
    ensures Fitting(t, pk, st, ks, qs, ps)
  {
    hide Free, Stored, Has, View;
    Smaller(Missing(t, NAME_HASH_PRIME, ks), ks);
    Smaller(Absent(t, pk, qs), qs);
    AllFree(InUse(pk), PACKAGE_HASH_PRIME);
    Smaller(Missing(View(t, pk, st), STATUS_HASH_PRIME, ps), ps);
  }

  lemma MoreStatuses(t: Slots, pk: Packages, st: Statuses, fs: seq<seq<Field>>, src: seq<Stanza>, ls: set<CString>,
                     ls': set<CString>)
    requires Tables(t, pk, st, fs, src, ls) && ls <= ls'
    ensures Tables(t, pk, st, fs, src, ls')
  {
    hide TableOk, Sourced;
  }

  lemma TablesTable(t: Slots, pk: Packages, st: Statuses, fs: seq<seq<Field>>, src: seq<Stanza>, ls: set<CString>)
    requires Tables(t, pk, st, fs, src, ls)
    ensures TableOk(t, NAME_HASH_PRIME)
  {
    hide TableOk, Sourced, StatusFrom;
  }

  lemma FittingRoom(t: Slots, pk: Packages, st: Statuses, ks: set<CString>, qs: set<Pair>, ps: set<CString>)
    requires Fitting(t, pk, st, ks, qs, ps)
    ensures Room(t, NAME_HASH_PRIME, ks, 0)
  {
    hide Room;
  }

  /** Comparing the index of the version with that of "unknown" compares the strings. */
  lemma SameVersion(t: Slots, n: Node, gs: seq<seq<Field>>, es: seq<Entry>, junk: Operator, i: nat)
    requires NodeFor(t, n, gs, es, junk) && TableOk(t, NAME_HASH_PRIME) && i < NAME_HASH_PRIME < |t| &&
      t[i] == Some(UNKNOWN)
    ensures n.version == i <==> LastVersion(es) == UNKNOWN
  {
    hide EntriesFields, LastVersion, LastName, Flatten, TableOk;
    if LastVersion(es) == UNKNOWN { OnePlace(t, NAME_HASH_PRIME, i, n.version); }
  }

  lemma SourcedPut(t: Slots, pk: Packages, fs: seq<seq<Field>>, src: seq<Stanza>, num: nat, n: Node, fields: seq<Field>,
                   s: Stanza)
    requires Sourced(t, pk, fs, src) && num < PACKAGE_HASH_PRIME && From(t, n, fields, s)
    ensures |fs| == |src| == PACKAGE_HASH_PRIME && Sourced(t, pk[num := Some(n)], fs[num := fields], src[num := s])
  {
    hide From;
  }

  lemma StatusPut(t: Slots, pk: Packages, st: Statuses, num: nat, n: Node, ps: set<CString>)
    requires StatusOk(t, pk, st) && num < PACKAGE_HASH_PRIME && num < |pk| && PackagesOk(t, pk[num := Some(n)]) &&
      |st| >= STATUS_HASH_PRIME
    requires (pk[num].Some? ==> Fits(t, pk[num].value, n.name, n.version, Equal)) &&
      Room(View(t, pk, st), STATUS_HASH_PRIME, ps, 1)
    ensures StatusOk(t, pk[num := Some(n)], st) && Room(View(t, pk[num := Some(n)], st), STATUS_HASH_PRIME, ps, 1)
    ensures LinesKept(t, pk, st, t, pk[num := Some(n)], st, None)
  {
    hide StatusOk, PackagesOk, Room, Holds, LinesKept, View;
    var pk' := pk[num := Some(n)];
    PackagePutView(t, pk, st, num, n);
    RoomSame(View(t, pk, st), View(t, pk', st), STATUS_HASH_PRIME, ps, 1);
    forall i | 0 <= i < STATUS_HASH_PRIME ensures NameIn(t, pk', st[i]) == NameIn(t, pk, st[i]) {
      assert View(t, pk', st)[i] == View(t, pk, st)[i];
    }
    KeptSlots(t, pk, st, t, pk', None);
  }

  /** A status line replaces at most that of its own name. */
  lemma KeptPut(t: Slots, pk: Packages, st: Statuses, r: nat, s: StatusNode, key: CString)
    requires r < |st| && (View(t, pk, st)[r].None? || View(t, pk, st)[r] == Some(key))
    ensures LinesKept(t, pk, st, t, pk, st[r := Some(s)], Some(key))
  {
    hide Str, NameIn;
    var st' := st[r := Some(s)];
    forall name, l | name != key && HasStatus(t, pk, st, name, l) ensures HasStatus(t, pk, st', name, l) {
      var i: nat :| StatusLineAt(t, pk, st, name, l, i);
      assert View(t, pk, st)[i] == NameIn(t, pk, st[i]);
      assert StatusLineAt(t, pk, st', name, l, i);
    }
  }

  /** The package found by name index and version is that of the stanza, and a free slot shows there is none. */
  lemma SlotFits(t: Slots, pk: Packages, fs: seq<seq<Field>>, src: seq<Stanza>, num: nat, n: Node, fields: seq<Field>,
                 s: Stanza)
    requires Sourced(t, pk, fs, src) && PackagesOk(t, pk) && num < PACKAGE_HASH_PRIME && From(t, n, fields, s)
    requires pk[num].Some? ==> Fits(t, pk[num].value, n.name, n.version, Equal)
    requires pk[num].None? ==> !SomeFits(t, pk, n.name, n.version, Equal)
    ensures pk[num].Some? ==> SamePackage(src[num], s)
    ensures pk[num].None? ==> !HasSlot(pk, src, s)
  {
    hide From, PackagesOk, LastName, LastVersion, Holds, SomeFits;
    FromFacts(t, n, fields, s);
    if pk[num].Some? {
      FromFacts(t, pk[num].value, fs[num], src[num]);
    } else if HasSlot(pk, src, s) {
      var i :| IsSlot(pk, src, s, i);
      FromFacts(t, pk[i].value, fs[i], src[i]);
      assert IsAt(t, pk, PairOf(t, n), i);
      HasFits(t, pk, n);
    }
  }

  lemma TablesKept(t: Slots, t': Slots, pk: Packages, st: Statuses, fs: seq<seq<Field>>, src: seq<Stanza>,
                   ls: set<CString>)
    requires Tables(t, pk, st, fs, src, ls) && Grows(t, t') && TableOk(t', NAME_HASH_PRIME)
    ensures LinesKept(t, pk, st, t', pk, st, None)
  {
    hide StatusOk, Sourced, StatusFrom, LinesKept, Grows, TableOk;
    KeptGrown(t, t', pk, st);
  }

  lemma EndsFor(t: Slots, pk: Packages, st: Statuses, key: CString)
    requires |st| >= STATUS_HASH_PRIME
    requires Free(View(t, pk, st), STATUS_HASH_PRIME) >= 2 || Stored(View(t, pk, st), STATUS_HASH_PRIME, key)
    ensures StatusEnds(t, pk, st, key)
  {
    hide Free, Stored;
  }

  lemma StatusFromPut(t: Slots, st: Statuses, ls: set<CString>, r: nat, s: StatusNode)
    requires StatusFrom(t, st, ls) && r < |st| && IsName(t, s.status) && Str(t, s.status) in ls
    ensures StatusFrom(t, st[r := Some(s)], ls)
  {
  }

  lemma ViewRoom(v: Slots, r: nat, key: CString, ps: set<CString>)
    requires Room(v, STATUS_HASH_PRIME, ps, 1) && r < STATUS_HASH_PRIME && key in ps
    requires v[r].None? <==> !Stored(v, STATUS_HASH_PRIME, key)
    requires v[r].Some? ==> v[r] == Some(key)
    ensures Room(v[r := Some(key)], STATUS_HASH_PRIME, ps, 1)
  {
    hide Stored, Free;
    if v[r].None? { RoomStep(v, STATUS_HASH_PRIME, ps, 1, r, key); } else { assert v[r := Some(key)] == v; }
  }
}
