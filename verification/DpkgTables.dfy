/** The package and status tables of dpkg.c, both probed by package name. */
module DpkgTables {
  import opened Bits
  import opened Probing
  import opened DpkgHash
  import opened DpkgVersion

  const PACKAGE_HASH_PRIME: nat := 10007
  const STATUS_HASH_PRIME: nat := 8191

  datatype EdgeType = PreDepends | OrPreDepends | Depends | OrDepends | Replaces | Provides | Conflicts | Suggests |
    Recommends | Enhances

  /** A dependency: name and version are indices into the name table; in an OR edge the version counts the
      alternatives. */
  datatype Edge = Edge(op: Operator, kind: EdgeType, name: nat, version: nat)

  datatype Node = Node(name: nat, version: nat, edges: seq<Edge>)

  datatype StatusNode = StatusNode(package: nat, status: nat)

  type Packages = seq<Option<Node>>
  type Statuses = seq<Option<StatusNode>>

  ghost predicate IsName(names: Slots, i: nat)
  {
    i < NAME_HASH_PRIME && i < |names| && names[i].Some?
  }

  /** An edge refers to names that exist. */
  ghost predicate EdgeOk(names: Slots, e: Edge)
  {
    IsName(names, e.name) && (e.kind == OrPreDepends || e.kind == OrDepends || IsName(names, e.version))
  }

  ghost predicate NodeOk(names: Slots, n: Node)
  {
    IsName(names, n.name) && IsName(names, n.version) && forall j :: 0 <= j < |n.edges| ==> EdgeOk(names, n.edges[j])
  }

  /** The string of a name; defined for every index so that it can be used anywhere. */
  ghost function Str(names: Slots, i: nat): (s: CString)
  {
    if i < |names| && names[i].Some? then names[i].value else []
  }

  /** The first k probes for a package name find packages. */
  ghost predicate Occupied(pk: Packages, key: CString, k: nat)
    requires |pk| > PACKAGE_HASH_PRIME
  {
    forall j: nat :: j < k ==> pk[Slot(key, PACKAGE_HASH_PRIME, j)].Some?
  }

  /** A package can be found by probing for its name. */
  ghost predicate Findable(names: Slots, pk: Packages, i: nat)
    requires |pk| > PACKAGE_HASH_PRIME && i < PACKAGE_HASH_PRIME
  {
    pk[i].Some? ==>
      exists k: nat :: k < PACKAGE_HASH_PRIME && Slot(Str(names, pk[i].value.name), PACKAGE_HASH_PRIME, k) == i &&
        Occupied(pk, Str(names, pk[i].value.name), k)
  }

  ghost predicate PackagesOk(names: Slots, pk: Packages)
  {
    TableOk(names, NAME_HASH_PRIME) && |pk| == PACKAGE_HASH_PRIME + 1 &&
    (forall i: nat :: i < PACKAGE_HASH_PRIME ==> Findable(names, pk, i)) &&
    (forall i: nat :: i < PACKAGE_HASH_PRIME && pk[i].Some? ==> NodeOk(names, pk[i].value))
  }

  ghost predicate HasRoom(pk: Packages)
  {
    exists i: nat :: i < PACKAGE_HASH_PRIME && i < |pk| && pk[i].None?
  }

  /** Package n has the given name and a version in the given relation. */
  ghost predicate Fits(names: Slots, n: Node, name: nat, version: nat, op: Operator)
  {
    n.name == name && Holds(Str(names, n.version), Str(names, version), op)
  }

  /** Some package has the name and a version in the relation. */
  ghost predicate SomeFits(names: Slots, pk: Packages, name: nat, version: nat, op: Operator)
  {
    exists i: nat :: i < PACKAGE_HASH_PRIME && i < |pk| && pk[i].Some? && Fits(names, pk[i].value, name, version, op)
  }

  /** The search stops: it meets a package that fits, or a free slot, after fewer than p steps. */
  lemma PackageSearchStops(names: Slots, pk: Packages, name: nat, version: nat, op: Operator) returns (k: nat)
    requires PackagesOk(names, pk) && (HasRoom(pk) || SomeFits(names, pk, name, version, op))
    ensures k < PACKAGE_HASH_PRIME &&
      !MissedAt(names, pk, name, version, op, Slot(Str(names, name), PACKAGE_HASH_PRIME, k))
  {
    hide TableOk, Holds;
    var key, p := Str(names, name), PACKAGE_HASH_PRIME;
    if HasRoom(pk) {
      PackagePrime();
      var i: nat :| i < p && i < |pk| && pk[i].None?;
      k := ProbeCovers(HashStart(key, p), HashStep(key, p), p, i);
    } else {
      var i: nat :| i < p && i < |pk| && pk[i].Some? && Fits(names, pk[i].value, name, version, op);
      assert Findable(names, pk, i);
      k :| k < p && Slot(key, p, k) == i && Occupied(pk, key, k);
    }
  }

  /** None of the first k probes for name finds a package that fits. */
  ghost predicate NoneFits(names: Slots, pk: Packages, name: nat, version: nat, op: Operator, k: nat)
    requires |pk| > PACKAGE_HASH_PRIME
  {
    forall j: nat :: j < k ==> MissedAt(names, pk, name, version, op, Slot(Str(names, name), PACKAGE_HASH_PRIME, j))
  }

  ghost predicate MissedAt(names: Slots, pk: Packages, name: nat, version: nat, op: Operator, i: nat)
    requires i < |pk|
  {
    pk[i].Some? && !Fits(names, pk[i].value, name, version, op)
  }

  /** A search that ends at a free slot has seen all packages of the name. */
  lemma SeenAll(names: Slots, pk: Packages, name: nat, version: nat, op: Operator, k: nat, i: nat)
    requires PackagesOk(names, pk) && NoneFits(names, pk, name, version, op, k) && i < PACKAGE_HASH_PRIME
    requires pk[Slot(Str(names, name), PACKAGE_HASH_PRIME, k)].None?
    ensures pk[i].Some? ==> !Fits(names, pk[i].value, name, version, op)
  {
    hide Slot, Holds, TableOk;
    if pk[i].Some? && pk[i].value.name == name {
      assert Findable(names, pk, i);
      var k': nat :| k' < PACKAGE_HASH_PRIME && Slot(Str(names, name), PACKAGE_HASH_PRIME, k') == i &&
        Occupied(pk, Str(names, name), k');
      assert k' < k;
      assert MissedAt(names, pk, name, version, op, Slot(Str(names, name), PACKAGE_HASH_PRIME, k'));
    }
  }

  /** search_package_hashtable: a package of that name that satisfies the relation, or the free slot that shows there
      is none. ns is the name table as it was when the packages were stored; it may have grown since. */
  method SearchPackage(names: array<Option<CString>>, ghost ns: Slots, pk: array<Option<Node>>, name: nat, version: nat,
                       op: Operator)
    returns (r: nat, ghost k: nat)
    requires PackagesOk(ns, pk[..]) && Grows(ns, names[..]) && IsName(ns, name) && IsName(ns, version)
    requires HasRoom(pk[..]) || SomeFits(ns, pk[..], name, version, op)
    ensures r < PACKAGE_HASH_PRIME
    ensures pk[r].Some? ==> Fits(ns, pk[r].value, name, version, op)
    ensures pk[r].None? ==>
      forall i: nat :: i < PACKAGE_HASH_PRIME && pk[i].Some? ==> !Fits(ns, pk[i].value, name, version, op)
    ensures k < PACKAGE_HASH_PRIME && r == Slot(Str(ns, name), PACKAGE_HASH_PRIME, k) &&
      Occupied(pk[..], Str(ns, name), k)
  {
    hide TableOk, Probe, HashStart, HashStep, Findable, CompareVersions;
    ghost var ps, p := pk[..], PACKAGE_HASH_PRIME;
    var key := names[name].value;
    var address, decrement := MakeHash(key, PACKAGE_HASH_PRIME);
    ghost var stop := PackageSearchStops(ns, ps, name, version, op);
    k := 0;
    FirstProbe(key, p);
    while pk[address].Some?
      invariant 0 <= k <= stop && address == Slot(key, p, k) && Occupied(ps, key, k)
      invariant NoneFits(ns, ps, name, version, op, k)
      decreases stop - k
    {
      var node := pk[address].value;
      if node.name == name {
        if op == Any { return address, k; }
        assert NodeOk(ns, node);
        var ok := TestVersion(names[node.version].value, names[version].value, op);
        if ok { return address, k; }
      }
      assert MissedAt(ns, ps, name, version, op, address);
      NextProbe(key, p, k);
      var next := address - decrement;
      if next < 0 { next := next + PACKAGE_HASH_PRIME; }
      address := next;
      k := k + 1;
    }
    forall i: nat | i < PACKAGE_HASH_PRIME && pk[i].Some? ensures !Fits(ns, pk[i].value, name, version, op) {
      SeenAll(ns, ps, name, version, op, k, i);
    }
    return address, k;
  }

  /** The end of fill_package_struct: a package replaces one with the same name and an equal version, or is added. */
  method AddPackage(names: array<Option<CString>>, pk: array<Option<Node>>, node: Node) returns (num: nat)
    requires PackagesOk(names[..], pk[..]) && NodeOk(names[..], node)
    requires HasRoom(pk[..]) || SomeFits(names[..], pk[..], node.name, node.version, Equal)
    modifies pk
    ensures PackagesOk(names[..], pk[..]) && num < PACKAGE_HASH_PRIME && pk[..] == old(pk[..])[num := Some(node)]
    ensures old(pk[num]).Some? ==> Fits(names[..], old(pk[num]).value, node.name, node.version, Equal)
    ensures old(pk[num]).None? ==> !SomeFits(names[..], old(pk[..]), node.name, node.version, Equal)
  {
    hide TableOk, Slot, Findable, Holds;
    ghost var k;
    num, k := SearchPackage(names, names[..], pk, node.name, node.version, Equal);
    PutKeeps(names[..], pk[..], node, num, k);
    pk[num] := Some(node);
  }

  lemma PutKeeps(names: Slots, pk: Packages, node: Node, i: nat, k: nat)
    requires PackagesOk(names, pk) && NodeOk(names, node) && k < PACKAGE_HASH_PRIME
    requires i == Slot(Str(names, node.name), PACKAGE_HASH_PRIME, k) && Occupied(pk, Str(names, node.name), k)
    ensures PackagesOk(names, pk[i := Some(node)])
  {
    hide TableOk, Slot, NodeOk;
    var pk' := pk[i := Some(node)];
    forall j: nat | j < PACKAGE_HASH_PRIME ensures Findable(names, pk', j) {
      if j == i {
        assert Slot(Str(names, pk'[j].value.name), PACKAGE_HASH_PRIME, k) == j &&
          Occupied(pk', Str(names, pk'[j].value.name), k);
      } else if pk[j].Some? {
        assert Findable(names, pk, j);
        var key := Str(names, pk[j].value.name);
        var k': nat :| k' < PACKAGE_HASH_PRIME && Slot(key, PACKAGE_HASH_PRIME, k') == j && Occupied(pk, key, k');
        assert Slot(Str(names, pk'[j].value.name), PACKAGE_HASH_PRIME, k') == j && Occupied(pk', key, k');
      }
    }
  }

  // ---- status ----

  /** The status table as a table of package names. */
  ghost function View(names: Slots, pk: Packages, st: Statuses): (v: Slots)
    ensures |v| == |st| && forall i :: 0 <= i < |st| ==> v[i] == NameIn(names, pk, st[i])
  {
    seq(|st|, i requires 0 <= i < |st| => NameIn(names, pk, st[i]))
  }

  ghost function NameIn(names: Slots, pk: Packages, s: Option<StatusNode>): (r: Option<CString>)
  {
    if s.Some? && s.value.package < |pk| && pk[s.value.package].Some?
      then Some(Str(names, pk[s.value.package].value.name)) else None
  }

  ghost predicate StatusOk(names: Slots, pk: Packages, st: Statuses)
  {
    PackagesOk(names, pk) && TableOk(View(names, pk, st), STATUS_HASH_PRIME) &&
    forall i: nat :: i < STATUS_HASH_PRIME && st[i].Some? ==>
      st[i].value.package < PACKAGE_HASH_PRIME && pk[st[i].value.package].Some? && IsName(names, st[i].value.status)
  }

  /** The search for the status of key ends: it has one, or there is a free slot. */
  ghost predicate StatusEnds(names: Slots, pk: Packages, st: Statuses, key: CString)
    requires |st| >= STATUS_HASH_PRIME
  {
    var v := View(names, pk, st);
    Free(v, STATUS_HASH_PRIME) >= 1 || Stored(v, STATUS_HASH_PRIME, key)
  }

  /** search_status_hashtable: where the package's status is, or the free slot that shows it has none. */
  method SearchStatus(names: array<Option<CString>>, ghost ns: Slots, pk: array<Option<Node>>,
                      st: array<Option<StatusNode>>, key: CString)
    returns (r: nat, ghost k: nat)
    requires StatusOk(ns, pk[..], st[..]) && Grows(ns, names[..]) && StatusEnds(ns, pk[..], st[..], key)
    ensures r < STATUS_HASH_PRIME && r < st.Length
    ensures st[r].Some? ==> View(ns, pk[..], st[..])[r] == Some(key)
    ensures st[r].None? ==> !Stored(View(ns, pk[..], st[..]), STATUS_HASH_PRIME, key)
    ensures k < STATUS_HASH_PRIME && r == Slot(key, STATUS_HASH_PRIME, k) &&
      Passed(View(ns, pk[..], st[..]), STATUS_HASH_PRIME, key, k)
  {
    hide Probe, HashStart, HashStep, Placed, Stored, Free, PackagesOk;
    ghost var v, p := View(ns, pk[..], st[..]), STATUS_HASH_PRIME;
    PackagesFacts(ns, pk[..]);
    var address, decrement := MakeHash(key, STATUS_HASH_PRIME);
    ghost var stop := SearchStops(v, p, key);
    k := 0;
    FirstProbe(key, p);
    while st[address].Some?
      invariant 0 <= k <= stop && address == Slot(key, p, k) && Passed(v, p, key, k)
      decreases stop - k
    {
      assert v[address] == NameIn(ns, pk[..], st[address]);
      PackageName(ns, pk[..], st[address].value.package);
      if names[pk[st[address].value.package].value.name].value == key { return address, k; }
      NextProbe(key, p, k);
      var next := address - decrement;
      if next < 0 { next := next + STATUS_HASH_PRIME; }
      address := next;
      k := k + 1;
    }
    assert v[address] == NameIn(ns, pk[..], st[address]);
    NotStored(v, p, key, k);
    return address, k;
  }

  lemma PackagesFacts(names: Slots, pk: Packages)
    requires PackagesOk(names, pk)
    ensures |names| == NAME_HASH_PRIME + 1 && |pk| == PACKAGE_HASH_PRIME + 1
  {
  }

  lemma PackageName(names: Slots, pk: Packages, i: nat)
    requires PackagesOk(names, pk) && i < PACKAGE_HASH_PRIME && pk[i].Some?
    ensures IsName(names, pk[i].value.name) && NodeOk(names, pk[i].value)
  {
  }

  /** The end of index_status_file: the status of a package replaces the one it had. */
  method AddStatus(names: array<Option<CString>>, pk: array<Option<Node>>, st: array<Option<StatusNode>>,
                   node: StatusNode)
    returns (r: nat)
    requires StatusOk(names[..], pk[..], st[..]) && IsName(names[..], node.status)
    requires node.package < PACKAGE_HASH_PRIME && pk[node.package].Some?
    requires StatusEnds(names[..], pk[..], st[..], Str(names[..], pk[node.package].value.name))
    modifies st
    ensures StatusOk(names[..], pk[..], st[..])
    ensures r < STATUS_HASH_PRIME && st[..] == old(st[..])[r := Some(node)]
    ensures var key := Str(names[..], pk[node.package].value.name);
            var v := old(View(names[..], pk[..], st[..]));
            View(names[..], pk[..], st[..]) == v[r := Some(key)] && (v[r].None? || v[r] == Some(key)) &&
            (v[r].None? <==> !Stored(v, STATUS_HASH_PRIME, key))
  {
    hide Placed, Stored, Free, PackagesOk, Slot;
    PackagesFacts(names[..], pk[..]);
    PackageName(names[..], pk[..], node.package);
    var key := names[pk[node.package].value.name].value;
    ghost var v := View(names[..], pk[..], st[..]);
    ghost var k;
    r, k := SearchStatus(names, names[..], pk, st, key);
    if st[r].None? {
      StoreKeeps(v, STATUS_HASH_PRIME, key, k);
    } else {
      assert v[r := Some(key)] == v;
      Found(v, STATUS_HASH_PRIME, key, r);
    }
    ghost var s0 := st[..];
    st[r] := Some(node);
    assert st[..] == s0[r := Some(node)];
    assert View(names[..], pk[..], st[..]) == v[r := Some(key)];
  }

  /** Adding a package does not disturb the status table. */
  lemma PackagePutView(names: Slots, pk: Packages, st: Statuses, num: nat, node: Node)
    requires StatusOk(names, pk, st) && num < PACKAGE_HASH_PRIME && PackagesOk(names, pk[num := Some(node)])
    requires pk[num].Some? ==> pk[num].value.name == node.name
    ensures StatusOk(names, pk[num := Some(node)], st)
    ensures forall i :: 0 <= i < STATUS_HASH_PRIME ==>
      View(names, pk[num := Some(node)], st)[i] == View(names, pk, st)[i]
  {
    hide TableOk, PackagesOk;
    PackagesFacts(names, pk);
    var pk' := pk[num := Some(node)];
    var v, v' := View(names, pk, st), View(names, pk', st);
    TableSize(v, STATUS_HASH_PRIME);
    forall i | 0 <= i < STATUS_HASH_PRIME ensures v[i] == v'[i] { }
    SameTable(v, v', STATUS_HASH_PRIME);
  }

  lemma TableSize(t: Slots, p: nat)
    requires TableOk(t, p)
    ensures |t| == p + 1
  {
  }

  lemma SameTable(t: Slots, t': Slots, p: nat)
    requires TableOk(t, p) && |t'| == |t| && forall i :: 0 <= i < p ==> t[i] == t'[i]
    ensures TableOk(t', p)
  {
    hide Slot;
    forall i: nat | i < p ensures Placed(t', p, i) {
      assert Placed(t, p, i);
      if t[i].Some? {
        var k: nat :| k < p && Slot(t[i].value, p, k) == i && Passed(t, p, t[i].value, k);
        assert Slot(t'[i].value, p, k) == i && Passed(t', p, t'[i].value, k);
      }
    }
  }

  // ---- the name table grows while packages are stored ----

  lemma StrGrows(t: Slots, t': Slots, i: nat)
    requires Grows(t, t') && IsName(t, i)
    ensures IsName(t', i) && Str(t', i) == Str(t, i)
  {
  }

  lemma NodeGrows(t: Slots, t': Slots, n: Node)
    requires Grows(t, t') && NodeOk(t, n)
    ensures NodeOk(t', n) && Str(t', n.name) == Str(t, n.name) && Str(t', n.version) == Str(t, n.version)
  {
    forall j | 0 <= j < |n.edges| ensures EdgeOk(t', n.edges[j]) { assert EdgeOk(t, n.edges[j]); }
  }

  /** Interning more strings keeps all packages where they are found. */
  lemma PackagesGrow(t: Slots, t': Slots, pk: Packages)
    requires PackagesOk(t, pk) && Grows(t, t') && TableOk(t', NAME_HASH_PRIME)
    ensures PackagesOk(t', pk)
  {
    hide TableOk, NodeOk, Slot, Str, Grows;
    forall i: nat | i < PACKAGE_HASH_PRIME ensures Findable(t', pk, i) {
      if pk[i].Some? {
        NodeGrows(t, t', pk[i].value);
        assert Findable(t, pk, i);
      }
    }
    forall i: nat | i < PACKAGE_HASH_PRIME && pk[i].Some?
      ensures NodeOk(t', pk[i].value)
    {
      NodeGrows(t, t', pk[i].value);
    }
  }

  /** ... and the status table as it was. */
  lemma StatusGrows(t: Slots, t': Slots, pk: Packages, st: Statuses)
    requires StatusOk(t, pk, st) && Grows(t, t') && TableOk(t', NAME_HASH_PRIME)
    ensures StatusOk(t', pk, st)
    ensures forall i :: 0 <= i < STATUS_HASH_PRIME ==> View(t', pk, st)[i] == View(t, pk, st)[i]
  {
    hide TableOk, PackagesOk;
    PackagesGrow(t, t', pk);
    PackagesFacts(t, pk);
    var v, v' := View(t, pk, st), View(t', pk, st);
    TableSize(v, STATUS_HASH_PRIME);
    forall i | 0 <= i < STATUS_HASH_PRIME ensures v[i] == v'[i] {
      if st[i].Some? {
        PackageName(t, pk, st[i].value.package);
        StrGrows(t, t', pk[st[i].value.package].value.name);
      }
    }
    SameTable(v, v', STATUS_HASH_PRIME);
  }

  /** Empty tables are in order. */
  lemma EmptyTables(t: Slots, pk: Packages, st: Statuses)
    requires TableOk(t, NAME_HASH_PRIME) && |pk| == PACKAGE_HASH_PRIME + 1 && |st| == STATUS_HASH_PRIME + 1
    requires (forall i :: 0 <= i < |pk| ==> pk[i].None?) && forall i :: 0 <= i < |st| ==> st[i].None?
    ensures StatusOk(t, pk, st) && Free(View(t, pk, st), STATUS_HASH_PRIME) == STATUS_HASH_PRIME
  {
    hide Prime;
    StatusPrime();
    AllFree(View(t, pk, st), STATUS_HASH_PRIME);
  }
}
