/** fill_package_struct and index_status_file of dpkg.c: from the stanzas of a status file to the three tables,
    and from there to the dependency phase. */
module DpkgIndex {
  import opened Bits
  import opened DpkgHash
  import opened DpkgVersion
  import opened DpkgTables
  import opened DpkgDeps
  import opened DpkgSplit

  const UNKNOWN: CString := [117, 110, 107, 110, 111, 119, 110]

  /** The fields of a stanza that fill_package_struct looks at. */
  datatype Entry = Package(value: CString) | Version(value: CString) | Relation(kind: EdgeType, value: CString)

  /** A stanza: its fields in order, what the operator of an edge without a relation holds, and the status line. */
  datatype Stanza = Stanza(entries: seq<Entry>, junk: Operator, status: CString)

  ghost predicate EntryOk(e: Entry)
  {
    e.Relation? ==> !IsOr(e.kind) && Tokens(e.value, COMMA) != [] && Splits(Tokens(e.value, COMMA))
  }

  ghost predicate EntriesOk(es: seq<Entry>)
  {
    forall i :: 0 <= i < |es| ==> EntryOk(es[i])
  }

  /** No relation of the field is illegal. */
  ghost predicate LegalEntry(e: Entry, junk: Operator)
  {
    e.Relation? ==> forall i :: 0 <= i < |Tokens(e.value, COMMA)| ==> Legal(Tokens(e.value, COMMA)[i], junk)
  }

  /** The strings that a field interns. */
  ghost function EntryNames(e: Entry, junk: Operator): (ks: set<CString>)
    requires EntryOk(e)
  {
    if e.Relation? then LineNames(Tokens(e.value, COMMA), e.kind, junk) else {e.value}
  }

  /** The strings that the fields intern, up to the first illegal one. */
  ghost function EntriesNames(es: seq<Entry>, junk: Operator): (ks: set<CString>)
    requires EntriesOk(es)
    decreases |es|
  {
    if es == [] then {} else
    EntryNames(es[0], junk) + if LegalEntry(es[0], junk) then EntriesNames(es[1..], junk) else {}
  }

  /** The last Package field. */
  function LastName(es: seq<Entry>): (r: Option<CString>)
  {
    if es == [] then None
    else if es[|es| - 1].Package? then Some(es[|es| - 1].value)
    else LastName(es[..|es| - 1])
  }

  /** The last Version field. */
  function LastVersion(es: seq<Entry>): (r: CString)
  {
    if es == [] then UNKNOWN
    else if es[|es| - 1].Version? then es[|es| - 1].value
    else LastVersion(es[..|es| - 1])
  }

  // ---- what the fields become ----

  ghost predicate LineFields(t: Slots, fs: seq<Field>, line: CString, kind: EdgeType, junk: Operator)
  {
    exists per :: |per| == |Tokens(line, COMMA)| && AllParts(t, per, Tokens(line, COMMA), kind, junk) &&
      fs == Concat(per)
  }

  ghost predicate EntryFields(t: Slots, fs: seq<Field>, e: Entry, junk: Operator)
  {
    if e.Relation? then LineFields(t, fs, e.value, e.kind, junk) else fs == []
  }

  /** gs has the groups of each field. */
  ghost predicate EntriesFields(t: Slots, gs: seq<seq<Field>>, es: seq<Entry>, junk: Operator)
  {
    |gs| == |es| && forall i :: 0 <= i < |es| ==> EntryFields(t, gs[i], es[i], junk)
  }

  /** The node and its groups are those of the fields. */
  ghost predicate NodeFor(t: Slots, n: Node, gs: seq<seq<Field>>, es: seq<Entry>, junk: Operator)
  {
    EntriesFields(t, gs, es, junk) && n.edges == Flatten(Concat(gs)) && Named(t, n.version, LastVersion(es)) &&
    (LastName(es).Some? ==> Named(t, n.name, LastName(es).value))
  }

  lemma LineGrows(t: Slots, t': Slots, fs: seq<Field>, line: CString, kind: EdgeType, junk: Operator)
    requires LineFields(t, fs, line, kind, junk) && Grows(t, t')
    ensures LineFields(t', fs, line, kind, junk)
  {
    hide PartFields, Concat, Tokens;
    var parts := Tokens(line, COMMA);
    var per :| |per| == |parts| && AllParts(t, per, parts, kind, junk) && fs == Concat(per);
    forall i | 0 <= i < |per|
      ensures PartFields(t', per[i], parts[i], kind, junk)
    {
      GrowsPart(t, t', per[i], parts[i], kind, junk);
    }
    assert AllParts(t', per, parts, kind, junk);
  }

  lemma NodeForGrows(t: Slots, t': Slots, n: Node, gs: seq<seq<Field>>, es: seq<Entry>, junk: Operator)
    requires NodeFor(t, n, gs, es, junk) && Grows(t, t')
    ensures NodeFor(t', n, gs, es, junk)
  {
    hide LineFields, Concat, Flatten, LastName, LastVersion;
    forall i | 0 <= i < |es| ensures EntryFields(t', gs[i], es[i], junk) {
      assert EntryFields(t, gs[i], es[i], junk);
      if es[i].Relation? { LineGrows(t, t', gs[i], es[i].value, es[i].kind, junk); }
    }
  }

  /** The groups of a field are laid out for check_deps. */
  lemma LineLaidOut(t: Slots, fs: seq<Field>, line: CString, kind: EdgeType, junk: Operator)
    requires LineFields(t, fs, line, kind, junk)
    ensures forall i :: 0 <= i < |fs| ==> FieldOk(fs[i])
    ensures forall j :: 0 <= j < |Flatten(fs)| ==> EdgeOk(t, Flatten(fs)[j])
  {
    hide AllParts, Concat, Tokens, FieldOk, EdgeOk, Flatten;
    var parts := Tokens(line, COMMA);
    var per :| |per| == |parts| && AllParts(t, per, parts, kind, junk) && fs == Concat(per);
    PartsLaidOut(t, per, parts, kind, junk);
  }

  /** The groups of all fields of a package are laid out for check_deps. */
  lemma {:induction false} FieldsLaidOut(t: Slots, gs: seq<seq<Field>>, es: seq<Entry>, junk: Operator)
    requires |gs| <= |es| && forall i :: 0 <= i < |gs| ==> EntryFields(t, gs[i], es[i], junk)
    ensures forall i :: 0 <= i < |Concat(gs)| ==> FieldOk(Concat(gs)[i])
    ensures forall j :: 0 <= j < |Flatten(Concat(gs))| ==> EdgeOk(t, Flatten(Concat(gs))[j])
    decreases |gs|
  {
    hide FieldOk, EdgeOk, Flatten, LineFields;
    if gs == [] {
      FlatNone();
    } else {
      var n := |gs| - 1;
      FieldsLaidOut(t, gs[..n], es, junk);
      assert EntryFields(t, gs[n], es[n], junk);
      if es[n].Relation? { LineLaidOut(t, gs[n], es[n].value, es[n].kind, junk); } else { FlatNone(); }
      FlattenConcat(Concat(gs[..n]), gs[n]);
    }
  }

  lemma FlatNone()
    ensures Flatten([]) == []
  {
  }

  // ---- filling a node ----

  /** The loop of fill_package_struct; none where it ends the program. */
  method FillNode(table: NameTable, es: seq<Entry>, junk: Operator, ghost ks: set<CString>)
    returns (r: Option<Node>, ghost gs: seq<seq<Field>>)
    requires table.Valid() && EntriesOk(es)
    requires Room(table.slots[..], NAME_HASH_PRIME, ks, 0) && UNKNOWN in ks && EntriesNames(es, junk) <= ks
    modifies table.slots
    ensures table.Valid() && Room(table.slots[..], NAME_HASH_PRIME, ks, 0) &&
      Grows(old(table.slots[..]), table.slots[..])
    ensures r.Some? == forall i :: 0 <= i < |es| ==> LegalEntry(es[i], junk)
    ensures r.Some? ==> NodeFor(table.slots[..], r.value, gs, es, junk)
  {
    hide TableOk, Grows, Room, EntryNames, LegalEntry, NodeFor;
    ghost var t0 := table.slots[..];
    var version := Intern(table, UNKNOWN, ks);
    var node := Node(0, version, []);
    gs := [];
    StartNode(table.slots[..], node, junk);
    assert es[..0] == [] && es[0..] == es;
    var i := 0;
    while i < |es|
      invariant 0 <= i <= |es| && table.Valid() && Grows(t0, table.slots[..]) &&
        Room(table.slots[..], NAME_HASH_PRIME, ks, 0)
      invariant EntriesOk(es[i..]) && EntriesNames(es[i..], junk) <= ks
      invariant NodeFor(table.slots[..], node, gs, es[..i], junk) && forall k :: 0 <= k < i ==> LegalEntry(es[k], junk)
    {
      ghost var t := table.slots[..];
      assert es[i..][0] == es[i] && es[i..][1..] == es[i + 1..] && es[..i + 1] == es[..i] + [es[i]];
      ghost var fs;
      var next;
      next, fs := FillEntry(table, node, es[i], junk, ks, gs, es[..i]);
      GrowsTrans(t0, t, table.slots[..]);
      if next.None? { return None, gs; }
      node, gs := next.value, gs + [fs];
      i := i + 1;
    }
    assert es[..i] == es;
    return Some(node), gs;
  }

  lemma StartNode(t: Slots, n: Node, junk: Operator)
    requires n.version < NAME_HASH_PRIME < |t| && t[n.version] == Some(UNKNOWN) && n.edges == []
    ensures NodeFor(t, n, [], [], junk)
  {
  }

  /** One field. */
  method FillEntry(table: NameTable, node: Node, e: Entry, junk: Operator, ghost ks: set<CString>,
                   ghost gs: seq<seq<Field>>, ghost before: seq<Entry>)
    returns (r: Option<Node>, ghost fs: seq<Field>)
    requires table.Valid() && EntryOk(e) && NodeFor(table.slots[..], node, gs, before, junk)
    requires Room(table.slots[..], NAME_HASH_PRIME, ks, 0) && EntryNames(e, junk) <= ks
    modifies table.slots
    ensures table.Valid() && Room(table.slots[..], NAME_HASH_PRIME, ks, 0) &&
      Grows(old(table.slots[..]), table.slots[..])
    ensures r.Some? == LegalEntry(e, junk)
    ensures r.Some? ==> NodeFor(table.slots[..], r.value, gs + [fs], before + [e], junk)
  {
    hide TableOk, Grows, Room, LineNames, AllParts, NodeFor, Tokens;
    ghost var t := table.slots[..];
    fs := [];
    match e
    case Package(value) =>
      var i := Intern(table, value, ks);
      r := Some(node.(name := i));
      NodeForGrows(t, table.slots[..], node, gs, before, junk);
      MoreName(table.slots[..], node, i, gs, before, e, junk);
    case Version(value) =>
      var i := Intern(table, value, ks);
      r := Some(node.(version := i));
      NodeForGrows(t, table.slots[..], node, gs, before, junk);
      MoreVersion(table.slots[..], node, i, gs, before, e, junk);
    case Relation(kind, value) =>
      var edges, per := AddSplitDependencies(table, node.edges, value, kind, junk, ks);
      if edges.None? { return None, []; }
      r := Some(node.(edges := edges.value));
      fs := Concat(per);
      NodeForGrows(t, table.slots[..], node, gs, before, junk);
      assert LineFields(table.slots[..], fs, value, kind, junk);
      MoreFields(table.slots[..], node, edges.value, gs, before, e, junk, fs);
  }

  lemma MoreName(t: Slots, n: Node, i: nat, gs: seq<seq<Field>>, es: seq<Entry>, e: Entry, junk: Operator)
    requires NodeFor(t, n, gs, es, junk) && e.Package? && Named(t, i, e.value)
    ensures NodeFor(t, n.(name := i), gs + [[]], es + [e], junk)
  {
    hide Flatten, LineFields;
    LastOf(es, e);
    MoreEntries(t, gs, es, junk, [], e);
  }

  lemma MoreVersion(t: Slots, n: Node, i: nat, gs: seq<seq<Field>>, es: seq<Entry>, e: Entry, junk: Operator)
    requires NodeFor(t, n, gs, es, junk) && e.Version? && Named(t, i, e.value)
    ensures NodeFor(t, n.(version := i), gs + [[]], es + [e], junk)
  {
    hide Flatten, LineFields;
    LastOf(es, e);
    MoreEntries(t, gs, es, junk, [], e);
  }

  lemma MoreFields(t: Slots, n: Node, edges: seq<Edge>, gs: seq<seq<Field>>, es: seq<Entry>, e: Entry, junk: Operator,
                   fs: seq<Field>)
    requires NodeFor(t, n, gs, es, junk) && e.Relation? && LineFields(t, fs, e.value, e.kind, junk) &&
      edges == n.edges + Flatten(fs)
    ensures NodeFor(t, n.(edges := edges), gs + [fs], es + [e], junk)
  {
    hide Flatten, LineFields;
    LastOf(es, e);
    MoreEntries(t, gs, es, junk, fs, e);
  }

  lemma MoreEntries(t: Slots, gs: seq<seq<Field>>, es: seq<Entry>, junk: Operator, fs: seq<Field>, e: Entry)
    requires EntriesFields(t, gs, es, junk) && EntryFields(t, fs, e, junk)
    ensures EntriesFields(t, gs + [fs], es + [e], junk)
    ensures Flatten(Concat(gs + [fs])) == Flatten(Concat(gs)) + Flatten(fs)
    ensures fs == [] ==> Flatten(Concat(gs + [fs])) == Flatten(Concat(gs))
  {
    hide EntryFields, Flatten;
    assert (gs + [fs])[..|gs|] == gs;
    FlattenConcat(Concat(gs), fs);
    FlatNone();
  }

  lemma LastOf(es: seq<Entry>, e: Entry)
    ensures LastName(es + [e]) == if e.Package? then Some(e.value) else LastName(es)
    ensures LastVersion(es + [e]) == if e.Version? then e.value else LastVersion(es)
  {
    assert (es + [e])[..|es|] == es;
  }
}
