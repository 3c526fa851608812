/** add_split_dependencies of dpkg.c: a dependency field becomes edges laid out for check_deps. */
module DpkgSplit {
  import opened Bits
  import opened DpkgHash
  import opened DpkgVersion
  import opened DpkgTables
  import opened DpkgDeps

  const COMMA: byte := 44
  const BAR: byte := 124
  const OPEN: byte := 40
  const CLOSE: byte := 41
  const LESS_SIGN: byte := 60
  const EQUAL_SIGN: byte := 61
  const MORE_SIGN: byte := 62
  const ANY_NAME: CString := [65, 78, 89]

  /** The tokens strtok_r delivers: the non-empty parts of s between delimiters. */
  function Tokens(s: CString, d: byte): (r: seq<CString>)
    ensures forall i :: 0 <= i < |r| ==> |r[i]| > 0 && d !in r[i]
    decreases |s|
  {
    var t: CString := s[While(s, [d])..];
    if t == [] then [] else
    var n := Until(t, [d]);
    assert n > 0;
    [t[..n]] + Tokens(t[n..], d)
  }

  /** A part of the field without the spaces before it. */
  function Trim(s: CString): (r: CString)
  {
    s[While(s, [SPACE])..]
  }

  // ---- one alternative ----

  datatype Alt = Alt(op: Operator, version: CString, name: CString)

  /** The relation spelled by the characters <, = and >; a single < or > counts like a double one. */
  function ParseOperator(o: seq<byte>): (r: Option<Operator>)
  {
    if o == [EQUAL_SIGN] then Some(Equal)
    else if o == [LESS_SIGN] || o == [LESS_SIGN, LESS_SIGN] then Some(Less)
    else if o == [LESS_SIGN, EQUAL_SIGN] then Some(LessEqual)
    else if o == [MORE_SIGN] || o == [MORE_SIGN, MORE_SIGN] then Some(More)
    else if o == [MORE_SIGN, EQUAL_SIGN] then Some(MoreEqual)
    else None
  }

  /** The relation and the version of an alternative from its parenthesis on; without a relation the operator stays what
      it was. */
  function ParseVersion(s: CString, junk: Operator): (r: Option<(Operator, CString)>)
  {
    var v: CString := s[While(s, [SPACE, OPEN])..];
    var n := While(v, [LESS_SIGN, EQUAL_SIGN, MORE_SIGN]);
    var op :- if n > 0 then ParseOperator(v[..n]) else Some(junk);
    var w: CString := Trim(v[n..]);
    Some((op, w[..Until(w, [SPACE, CLOSE])]))
  }

  function ParseAlt(text: CString, junk: Operator): (r: Option<Alt>)
  {
    var t := Trim(text);
    var p := Until(t, [OPEN]);
    var name: CString := t[..Until(t, [SPACE, OPEN])];
    if p == |t| then Some(Alt(Any, ANY_NAME, name)) else
    var (op, version) :- ParseVersion(t[p..], junk);
    Some(Alt(op, version, name))
  }

  // ---- edges for texts ----

  ghost predicate Named(t: Slots, i: nat, s: CString)
  {
    i < NAME_HASH_PRIME && i < |t| && t[i] == Some(s)
  }

  ghost predicate EdgeFor(t: Slots, e: Edge, a: Alt, kind: EdgeType)
  {
    e.op == a.op && e.kind == kind && Named(t, e.name, a.name) && Named(t, e.version, a.version)
  }

  /** The edges for the texts, one for each. */
  ghost predicate EdgesFor(t: Slots, es: seq<Edge>, texts: seq<CString>, kind: EdgeType, junk: Operator)
  {
    |es| == |texts| &&
      forall i :: 0 <= i < |es| ==>
      ParseAlt(texts[i], junk).Some? && EdgeFor(t, es[i], ParseAlt(texts[i], junk).value, kind)
  }

  lemma GrowsEdges(t: Slots, t': Slots, es: seq<Edge>, texts: seq<CString>, kind: EdgeType, junk: Operator)
    requires EdgesFor(t, es, texts, kind, junk) && Grows(t, t')
    ensures EdgesFor(t', es, texts, kind, junk)
  {
    hide ParseAlt;
  }

  lemma EdgesPush(t: Slots, es: seq<Edge>, texts: seq<CString>, kind: EdgeType, junk: Operator, e: Edge)
    requires |es| < |texts| && EdgesFor(t, es, texts[..|es|], kind, junk)
    requires ParseAlt(texts[|es|], junk).Some? && EdgeFor(t, e, ParseAlt(texts[|es|], junk).value, kind)
    ensures EdgesFor(t, es + [e], texts[..|es| + 1], kind, junk)
  {
    hide ParseAlt, EdgeFor;
    var ts := texts[..|es|];
    forall i | 0 <= i < |es|
      ensures ParseAlt(texts[i], junk).Some? && EdgeFor(t, es[i], ParseAlt(texts[i], junk).value, kind) {
      assert ts[i] == texts[i];
    }
  }

  lemma NoEdges(t: Slots, kind: EdgeType, junk: Operator)
    ensures EdgesFor(t, [], [], kind, junk) && Grows(t, t)
  {
  }

  lemma EdgesParsed(t: Slots, es: seq<Edge>, texts: seq<CString>, kind: EdgeType, junk: Operator)
    requires EdgesFor(t, es, texts, kind, junk)
    ensures |es| == |texts| && forall i :: 0 <= i < |texts| ==> ParseAlt(texts[i], junk).Some?
  {
    hide ParseAlt, EdgeFor;
  }

  /** The strings that the alternatives intern, up to the first with an illegal operator. */
  ghost function AltNames(texts: seq<CString>, junk: Operator): (ks: set<CString>)
    decreases |texts|
  {
    if texts == [] || ParseAlt(texts[0], junk).None? then {} else
    var a := ParseAlt(texts[0], junk).value;
    {a.version, a.name} + AltNames(texts[1..], junk)
  }

  /** One alternative: its names, then its edge; none for an illegal operator. */
  method AddAlternative(table: NameTable, text: CString, kind: EdgeType, junk: Operator, ghost ks: set<CString>)
    returns (e: Option<Edge>)
    requires table.Valid() && Room(table.slots[..], NAME_HASH_PRIME, ks, 0)
    requires var a := ParseAlt(text, junk); a.Some? ==> a.value.version in ks && a.value.name in ks
    modifies table.slots
    ensures table.Valid() && Room(table.slots[..], NAME_HASH_PRIME, ks, 0) &&
      Grows(old(table.slots[..]), table.slots[..])
    ensures e.Some? == ParseAlt(text, junk).Some?
    ensures e.Some? ==> EdgeFor(table.slots[..], e.value, ParseAlt(text, junk).value, kind)
  {
    hide Free, ParseAlt, TableOk, Room;
    var a := ParseAlt(text, junk);
    if a.None? { return None; }
    ghost var t := table.slots[..];
    var version := Intern(table, a.value.version, ks);
    ghost var t1 := table.slots[..];
    var name := Intern(table, a.value.name, ks);
    GrowsTrans(t, t1, table.slots[..]);
    assert t1[version] == Some(a.value.version) && table.slots[version] == t1[version];
    return Some(Edge(a.value.op, kind, name, version));
  }

  /** The alternatives of one part, in order. */
  method AddAlternatives(table: NameTable, texts: seq<CString>, kind: EdgeType, junk: Operator, ghost ks: set<CString>)
    returns (es: Option<seq<Edge>>)
    requires table.Valid() && Room(table.slots[..], NAME_HASH_PRIME, ks, 0) && AltNames(texts, junk) <= ks
    modifies table.slots
    ensures table.Valid() && Room(table.slots[..], NAME_HASH_PRIME, ks, 0) &&
      Grows(old(table.slots[..]), table.slots[..])
    ensures es.Some? == (forall i :: 0 <= i < |texts| ==> ParseAlt(texts[i], junk).Some?)
    ensures es.Some? ==> EdgesFor(table.slots[..], es.value, texts, kind, junk)
  {
    hide ParseAlt, TableOk, Grows, EdgesFor, EdgeFor, Room;
    ghost var t0 := table.slots[..];
    var done: seq<Edge> := [];
    NoEdges(t0, kind, junk);
    assert texts[..0] == [] && texts[0..] == texts;
    while |done| < |texts|
      invariant table.Valid() && Grows(t0, table.slots[..]) && |done| <= |texts|
      invariant Room(table.slots[..], NAME_HASH_PRIME, ks, 0) && AltNames(texts[|done|..], junk) <= ks
      invariant EdgesFor(table.slots[..], done, texts[..|done|], kind, junk)
    {
      ghost var t := table.slots[..];
      assert texts[|done|..][0] == texts[|done|] && texts[|done|..][1..] == texts[|done| + 1..];
      var e := AddAlternative(table, texts[|done|], kind, junk, ks);
      GrowsTrans(t0, t, table.slots[..]);
      if e.None? { return None; }
      GrowsEdges(t, table.slots[..], done, texts[..|done|], kind, junk);
      EdgesPush(table.slots[..], done, texts, kind, junk, e.value);
      done := done + [e.value];
    }
    assert texts[..|done|] == texts;
    EdgesParsed(table.slots[..], done, texts, kind, junk);
    return Some(done);
  }

  // ---- one part ----

  /** Edges that stand for themselves. */
  ghost function Singles(es: seq<Edge>): (fs: seq<Field>)
    ensures |fs| == |es|
  {
    if es == [] then [] else [if IsDepend(es[0].kind) then Alone(es[0]) else Other(es[0])] + Singles(es[1..])
  }

  lemma {:induction false} SinglesFlat(es: seq<Edge>)
    requires forall i :: 0 <= i < |es| ==> !IsOr(es[i].kind)
    ensures Flatten(Singles(es)) == es &&
      forall i :: 0 <= i < |es| ==> FieldOk(Singles(es)[i]) && !Singles(es)[i].Choice?
    decreases |es|
  {
    if es != [] { SinglesFlat(es[1..]); }
  }

  /** What a part of the field becomes. */
  ghost predicate PartFields(t: Slots, fs: seq<Field>, part: CString, kind: EdgeType, junk: Operator)
  {
    var field := Trim(part);
    var alts := Tokens(field, BAR);
    alts != [] && (forall i :: 0 <= i < |fs| ==> FieldOk(fs[i])) &&
    if IsDepend(kind) && field != alts[0]
    then
      |fs| == 1 && fs[0].Choice? && fs[0].root.kind == OrOf(kind) && fs[0].root.version == |alts| &&
        Named(t, fs[0].root.name, field) &&
      EdgesFor(t, fs[0].alts, alts, kind, junk)
    else |fs| == |alts| && (forall i :: 0 <= i < |fs| ==> !fs[i].Choice?) && EdgesFor(t, Flatten(fs), alts, kind, junk)
  }

  lemma GrowsPart(t: Slots, t': Slots, fs: seq<Field>, part: CString, kind: EdgeType, junk: Operator)
    requires PartFields(t, fs, part, kind, junk) && Grows(t, t')
    ensures PartFields(t', fs, part, kind, junk)
  {
    hide EdgesFor, Tokens, Flatten, FieldOk;
    var alts := Tokens(Trim(part), BAR);
    if IsDepend(kind) && Trim(part) != alts[0] {
      GrowsEdges(t, t', fs[0].alts, alts, kind, junk);
    } else {
      GrowsEdges(t, t', Flatten(fs), alts, kind, junk);
    }
  }

  lemma EdgeKinds(t: Slots, es: seq<Edge>, texts: seq<CString>, kind: EdgeType, junk: Operator)
    requires EdgesFor(t, es, texts, kind, junk)
    ensures |es| == |texts| && forall i :: 0 <= i < |es| ==> es[i].kind == kind
  {
    hide ParseAlt;
  }

  /** The part has alternatives of its own, so that it gets a root edge. */
  predicate HasRoot(part: CString, kind: EdgeType)
    requires Tokens(Trim(part), BAR) != []
  {
    IsDepend(kind) && Trim(part) != Tokens(Trim(part), BAR)[0]
  }

  /** The strings that a part interns. */
  ghost function PartNames(part: CString, kind: EdgeType, junk: Operator): (ks: set<CString>)
    requires Tokens(Trim(part), BAR) != []
  {
    (if HasRoot(part, kind) then {Trim(part)} else {}) + AltNames(Tokens(Trim(part), BAR), junk)
  }

  /** The body of the outer loop; the part must have at least one alternative. */
  method AddPart(table: NameTable, part: CString, kind: EdgeType, junk: Operator, ghost ks: set<CString>)
    returns (r: Option<seq<Edge>>, ghost fs: seq<Field>)
    requires table.Valid() && !IsOr(kind) && Tokens(Trim(part), BAR) != []
    requires Room(table.slots[..], NAME_HASH_PRIME, ks, 0) && PartNames(part, kind, junk) <= ks
    modifies table.slots
    ensures table.Valid() && Room(table.slots[..], NAME_HASH_PRIME, ks, 0) &&
      Grows(old(table.slots[..]), table.slots[..])
    ensures r.Some? == Legal(part, junk)
    ensures r.Some? ==> r.value == Flatten(fs) && PartFields(table.slots[..], fs, part, kind, junk)
  {
    hide ParseAlt, TableOk, Grows, EdgesFor, EdgeFor, Tokens, Flatten, Room, AltNames;
    var field := Trim(part);
    var alts := Tokens(field, BAR);
    ghost var t0 := table.slots[..];
    var isChoice := IsDepend(kind) && field != alts[0];
    var rootName := 0;
    NoEdges(t0, kind, junk);
    if isChoice { rootName := Intern(table, field, ks); }
    ghost var t := table.slots[..];
    var es := AddAlternatives(table, alts, kind, junk, ks);
    GrowsTrans(t0, t, table.slots[..]);
    if es.None? { return None, []; }
    EdgeKinds(table.slots[..], es.value, alts, kind, junk);
    if isChoice {
      GrowsName(t, table.slots[..], rootName, field);
      var root := Edge(Null, OrOf(kind), rootName, |alts|);
      fs := [Choice(root, es.value)];
      FlatOne(fs[0]);
      r := Some([root] + es.value);
    } else {
      fs := Singles(es.value);
      SinglesFlat(es.value);
      r := es;
    }
  }

  lemma GrowsName(t: Slots, t': Slots, i: nat, s: CString)
    requires Grows(t, t') && Named(t, i, s)
    ensures Named(t', i, s)
  {
  }

  lemma FlatOne(f: Field)
    ensures Flatten([f]) == Edges(f)
  {
    assert [f][1..] == [];
  }

  /** No alternative of the part has an illegal operator. */
  ghost predicate Legal(part: CString, junk: Operator)
  {
    forall i :: 0 <= i < |Tokens(Trim(part), BAR)| ==> ParseAlt(Tokens(Trim(part), BAR)[i], junk).Some?
  }

  // ---- the whole field ----

  /** Each part has at least one alternative. */
  predicate Splits(parts: seq<CString>)
  {
    forall i :: 0 <= i < |parts| ==> Tokens(Trim(parts[i]), BAR) != []
  }

  /** The strings that the parts intern, up to the first illegal operator. */
  ghost function LineNames(parts: seq<CString>, kind: EdgeType, junk: Operator): (ks: set<CString>)
    requires Splits(parts)
    decreases |parts|
  {
    if parts == [] then {} else
    PartNames(parts[0], kind, junk) + if Legal(parts[0], junk) then LineNames(parts[1..], kind, junk) else {}
  }

  ghost function Concat(per: seq<seq<Field>>): (fs: seq<Field>)
  {
    if per == [] then [] else Concat(per[..|per| - 1]) + per[|per| - 1]
  }

  lemma {:induction false} FlattenConcat(a: seq<Field>, b: seq<Field>)
    ensures Flatten(a + b) == Flatten(a) + Flatten(b)
    decreases |a|
  {
    if a == [] {
      assert a + b == b;
    } else {
      assert (a + b)[1..] == a[1..] + b;
      FlattenConcat(a[1..], b);
      assert Edges(a[0]) + (Flatten(a[1..]) + Flatten(b)) == (Edges(a[0]) + Flatten(a[1..])) + Flatten(b);
    }
  }

  ghost predicate AllParts(t: Slots, per: seq<seq<Field>>, parts: seq<CString>, kind: EdgeType, junk: Operator)
  {
    |per| <= |parts| && forall i :: 0 <= i < |per| ==> PartFields(t, per[i], parts[i], kind, junk)
  }

  lemma PartsPush(t: Slots, t': Slots, per: seq<seq<Field>>, parts: seq<CString>, kind: EdgeType, junk: Operator,
                  fs: seq<Field>)
    requires AllParts(t, per, parts, kind, junk) && |per| < |parts| && Grows(t, t') &&
      PartFields(t', fs, parts[|per|], kind, junk)
    ensures AllParts(t', per + [fs], parts, kind, junk) &&
      Flatten(Concat(per + [fs])) == Flatten(Concat(per)) + Flatten(fs)
  {
    hide PartFields, Grows, Flatten;
    forall i | 0 <= i < |per|
      ensures PartFields(t', per[i], parts[i], kind, junk)
    {
      GrowsPart(t, t', per[i], parts[i], kind, junk);
    }
    assert (per + [fs])[..|per|] == per;
    FlattenConcat(Concat(per), fs);
  }

  /** The parts of a dependency field, appended to the edges of a package in order. None if an operator is illegal. */
  method AddSplitDependencies(table: NameTable, edges: seq<Edge>, line: CString, kind: EdgeType, junk: Operator,
                              ghost ks: set<CString>)
    returns (r: Option<seq<Edge>>, ghost per: seq<seq<Field>>)
    requires table.Valid() && !IsOr(kind) && Tokens(line, COMMA) != [] && Splits(Tokens(line, COMMA))
    requires Room(table.slots[..], NAME_HASH_PRIME, ks, 0) && LineNames(Tokens(line, COMMA), kind, junk) <= ks
    modifies table.slots
    ensures table.Valid() && Room(table.slots[..], NAME_HASH_PRIME, ks, 0) &&
      Grows(old(table.slots[..]), table.slots[..])
    ensures r.Some? == forall i :: 0 <= i < |Tokens(line, COMMA)| ==> Legal(Tokens(line, COMMA)[i], junk)
    ensures r.Some? ==>
      |per| == |Tokens(line, COMMA)| && AllParts(table.slots[..], per, Tokens(line, COMMA), kind, junk)
    ensures r.Some? ==> r.value == edges + Flatten(Concat(per))
  {
    hide TableOk, Grows, Tokens, Flatten, PartFields, Legal, AllParts, PartNames, Room;
    ghost var t0 := table.slots[..];
    var parts := Tokens(line, COMMA);
    var result := edges;
    per := [];
    NoParts(t0, parts, kind, junk);
    assert edges + [] == edges;
    var i := 0;
    assert parts[0..] == parts;
    while i < |parts|
      invariant 0 <= i <= |parts| && i == |per| && table.Valid() && Grows(t0, table.slots[..])
      invariant Room(table.slots[..], NAME_HASH_PRIME, ks, 0) && Splits(parts[i..]) &&
        LineNames(parts[i..], kind, junk) <= ks
      invariant AllParts(table.slots[..], per, parts, kind, junk) && result == edges + Flatten(Concat(per))
      invariant forall k :: 0 <= k < i ==> Legal(parts[k], junk)
    {
      ghost var t := table.slots[..];
      assert parts[i..][0] == parts[i] && parts[i..][1..] == parts[i + 1..];
      var es, fs := AddPart(table, parts[i], kind, junk, ks);
      GrowsTrans(t0, t, table.slots[..]);
      if es.None? { return None, per; }
      PartsPush(t, table.slots[..], per, parts, kind, junk, fs);
      assert (edges + Flatten(Concat(per))) + es.value == edges + (Flatten(Concat(per)) + es.value);
      result := result + es.value;
      per := per + [fs];
      i := i + 1;
    }
    return Some(result), per;
  }

  lemma NoParts(t: Slots, parts: seq<CString>, kind: EdgeType, junk: Operator)
    ensures AllParts(t, [], parts, kind, junk) && Grows(t, t) && Flatten(Concat([])) == []
  {
  }

  // ---- the layout is the one check_deps relies on ----

  /** All parts together are laid out as check_deps needs them, and their edges refer to names. */
  lemma {:induction false} PartsLaidOut(t: Slots, per: seq<seq<Field>>, parts: seq<CString>, kind: EdgeType,
                                        junk: Operator)
    requires AllParts(t, per, parts, kind, junk)
    ensures forall i :: 0 <= i < |Concat(per)| ==> FieldOk(Concat(per)[i])
    ensures forall j :: 0 <= j < |Flatten(Concat(per))| ==> EdgeOk(t, Flatten(Concat(per))[j])
    decreases |per|
  {
    hide FieldOk, EdgeOk, Flatten, PartFields;
    if per == [] {
      NoParts(t, parts, kind, junk);
    } else {
      var n := |per| - 1;
      PartsLaidOut(t, per[..n], parts, kind, junk);
      PartEdges(t, per[n], parts[n], kind, junk);
      FlattenConcat(Concat(per[..n]), per[n]);
    }
  }

  lemma PartEdges(t: Slots, fs: seq<Field>, part: CString, kind: EdgeType, junk: Operator)
    requires PartFields(t, fs, part, kind, junk)
    ensures forall i :: 0 <= i < |fs| ==> FieldOk(fs[i])
    ensures forall j :: 0 <= j < |Flatten(fs)| ==> EdgeOk(t, Flatten(fs)[j])
  {
    hide Flatten, Tokens, FieldOk, ParseAlt, EdgesFor;
    var alts := Tokens(Trim(part), BAR);
    if IsDepend(kind) && Trim(part) != alts[0] {
      assert fs == [fs[0]];
      FlatOne(fs[0]);
      NamedEdges(t, fs[0].alts, alts, kind, junk);
    } else {
      NamedEdges(t, Flatten(fs), alts, kind, junk);
    }
  }

  lemma NamedEdges(t: Slots, es: seq<Edge>, texts: seq<CString>, kind: EdgeType, junk: Operator)
    requires EdgesFor(t, es, texts, kind, junk)
    ensures forall j :: 0 <= j < |es| ==> EdgeOk(t, es[j])
  {
    hide ParseAlt;
  }
}
