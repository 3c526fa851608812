/** The hash tables of dpkg.c: interned strings, and packages by name. */
module DpkgHash {
  import opened Bits
  import opened Probing

  const NAME_HASH_PRIME: nat := 16381
  const WORD: nat := 0x1_0000_0000

  // ---- make_hash ----

  /** The hash of the first n characters; char is unsigned, long has 32 bits. */
  function HashNum(key: CString, n: nat): (h: nat)
    requires n <= |key|
    ensures h < WORD
  {
    if n == 0 then 0
    else if n == 1 then key[0]
    else
      var c: nat, b: nat := key[n - 1], key[n - 2];
      (HashNum(key, n - 1) + Shl(c + b, (c * (n - 1)) % 24)) % WORD
  }

  function HashStart(key: CString, prime: nat): (a: nat)
    requires prime >= 2
    ensures a < prime
  {
    HashNum(key, |key|) % prime
  }

  function HashStep(key: CString, prime: nat): (d: nat)
    requires prime >= 2
    ensures 1 <= d < prime
  {
    1 + HashNum(key, |key|) % (prime - 1)
  }

  method MakeHash(key: CString, prime: nat) returns (start: nat, decrement: nat)
    requires prime >= 2
    ensures start == HashStart(key, prime) && decrement == HashStep(key, prime)
  {
    hide Shl;
    var hash: nat := if key == [] then 0 else key[0];
    var i := 1;
    while i < |key|
      invariant 1 <= i && (i <= |key| || key == []) && hash == HashNum(key, if key == [] then 0 else i)
    {
      var c: nat, b: nat := key[i], key[i - 1];
      hash := (hash + Shl(c + b, (c * i) % 24)) % WORD;
      i := i + 1;
    }
    start, decrement := hash % prime, 1 + hash % (prime - 1);
  }

  // ---- open addressing without deletion ----

  /** The slot that the k-th probe for key looks at. */
  ghost function Slot(key: CString, p: nat, k: nat): (i: nat)
    requires p >= 2
    ensures i < p
  {
    Probe(HashStart(key, p), HashStep(key, p), p, k)
  }

  type Slots = seq<Option<CString>>

  /** The first k probes for key find other strings. */
  ghost predicate Passed(t: Slots, p: nat, key: CString, k: nat)
    requires p >= 2 && |t| > p
  {
    forall j: nat :: j < k ==> t[Slot(key, p, j)].Some? && t[Slot(key, p, j)].value != key
  }

  /** A string is where probing for it first finds it. */
  ghost predicate Placed(t: Slots, p: nat, i: nat)
    requires p >= 2 && |t| > p && i < p
  {
    t[i].Some? ==> exists k: nat :: k < p && Slot(t[i].value, p, k) == i && Passed(t, p, t[i].value, k)
  }

  ghost predicate TableOk(t: Slots, p: nat)
  {
    Prime(p) && |t| == p + 1 && forall i: nat :: i < p ==> Placed(t, p, i)
  }

  ghost predicate Stored(t: Slots, p: nat, key: CString)
  {
    exists i: nat :: i < p && i < |t| && t[i] == Some(key)
  }

  /** How many of the first n slots are free. */
  ghost function Free(t: Slots, n: nat): (f: nat)
    requires n <= |t|
  {
    if n == 0 then 0 else Free(t, n - 1) + if t[n - 1].None? then 1 else 0
  }

  lemma {:induction false} FreeSlot(t: Slots, n: nat) returns (i: nat)
    requires n <= |t| && Free(t, n) >= 1
    ensures i < n && t[i].None?
  {
    if t[n - 1].None? { i := n - 1; } else { i := FreeSlot(t, n - 1); }
  }

  lemma {:induction false} FreeFilled(t: Slots, n: nat, i: nat, x: CString)
    requires n <= |t| && i < |t| && t[i].None?
    ensures Free(t[i := Some(x)], n) == Free(t, n) - if i < n then 1 else 0
  {
    if n > 0 { FreeFilled(t, n - 1, i, x); }
  }

  /** A string is stored in one place only. */
  lemma OnePlace(t: Slots, p: nat, i: nat, i': nat)
    requires TableOk(t, p) && i < p && i' < p && t[i].Some? && t[i'] == t[i]
    ensures i == i'
  {
    hide Slot;
    assert Placed(t, p, i) && Placed(t, p, i');
    var k: nat :| k < p && Slot(t[i].value, p, k) == i && Passed(t, p, t[i].value, k);
    var k': nat :| k' < p && Slot(t[i].value, p, k') == i' && Passed(t, p, t[i].value, k');
    assert k >= k' && k' >= k;
  }

  /** The search stops: it meets the key or a free slot after fewer than p steps. */
  lemma SearchStops(t: Slots, p: nat, key: CString) returns (k: nat)
    requires TableOk(t, p) && (Free(t, p) >= 1 || Stored(t, p, key))
    ensures k < p && (t[Slot(key, p, k)].None? || t[Slot(key, p, k)].value == key)
  {
    if Stored(t, p, key) {
      var i: nat :| i < p && i < |t| && t[i] == Some(key);
      assert Placed(t, p, i);
      k :| k < p && Slot(t[i].value, p, k) == i;
    } else {
      var i := FreeSlot(t, p);
      k := ProbeCovers(HashStart(key, p), HashStep(key, p), p, i);
    }
  }

  /** Passing all probes up to a free slot proves that the key is not stored. */
  lemma NotStored(t: Slots, p: nat, key: CString, k: nat)
    requires TableOk(t, p) && k < p && Passed(t, p, key, k) && t[Slot(key, p, k)].None?
    ensures !Stored(t, p, key)
  {
    hide Slot;
    forall i: nat | i < p && t[i].Some? ensures t[i].value != key {
      assert Placed(t, p, i);
      var k': nat :| k' < p && Slot(t[i].value, p, k') == i && Passed(t, p, t[i].value, k');
    }
  }

  /** Storing a key in the free slot that ends its search keeps the table in order. */
  lemma StoreKeeps(t: Slots, p: nat, key: CString, k: nat)
    requires TableOk(t, p) && k < p && Passed(t, p, key, k) && t[Slot(key, p, k)].None?
    ensures TableOk(t[Slot(key, p, k) := Some(key)], p)
  {
    hide Slot;
    var s := Slot(key, p, k);
    var t' := t[s := Some(key)];
    forall i: nat | i < p ensures Placed(t', p, i) {
      if i == s {
        assert Slot(t'[i].value, p, k) == i && Passed(t', p, t'[i].value, k);
      } else if t[i].Some? {
        assert Placed(t, p, i);
        var k': nat :| k' < p && Slot(t[i].value, p, k') == i && Passed(t, p, t[i].value, k');
        assert Slot(t'[i].value, p, k') == i && Passed(t', p, t'[i].value, k');
      }
    }
  }

  class NameTable {
    const slots: array<Option<CString>>

    ghost predicate Valid()
      reads slots
    {
      TableOk(slots[..], NAME_HASH_PRIME)
    }

    constructor ()
      ensures Valid() && fresh(slots) && Free(slots[..], NAME_HASH_PRIME) == NAME_HASH_PRIME
    {
      slots := new Option<CString>[NAME_HASH_PRIME + 1](_ => None);
      new;
      NamePrime();
      AllFree(slots[..], NAME_HASH_PRIME);
    }

    /** search_name_hashtable: the index of key, which is added if it is not there yet. */
    method Search(key: CString) returns (i: nat)
      requires Valid() && (Free(slots[..], NAME_HASH_PRIME) >= 1 || Stored(slots[..], NAME_HASH_PRIME, key))
      modifies slots
      ensures Valid() && i < NAME_HASH_PRIME && slots[i] == Some(key)
      ensures old(Stored(slots[..], NAME_HASH_PRIME, key)) ==> slots[..] == old(slots[..])
      ensures !old(Stored(slots[..], NAME_HASH_PRIME, key)) ==>
        old(slots[i]).None? && slots[..] == old(slots[..])[i := Some(key)] &&
        Free(slots[..], NAME_HASH_PRIME) == old(Free(slots[..], NAME_HASH_PRIME)) - 1
    {
      hide Free, Probe, HashStart, HashStep, Placed, Stored;
      ghost var t, p := slots[..], NAME_HASH_PRIME;
      var address, decrement := MakeHash(key, NAME_HASH_PRIME);
      ghost var stop := SearchStops(t, p, key);
      ghost var k := 0;
      FirstProbe(key, p);
      while slots[address].Some?
        invariant 0 <= k <= stop && address == Slot(key, p, k) && Passed(t, p, key, k) && slots[..] == t
        decreases stop - k
      {
        if slots[address].value == key {
          Found(t, p, key, address);
          return address;
        }
        NextProbe(key, p, k);
        var next := address - decrement;
        if next < 0 { next := next + NAME_HASH_PRIME; }
        address := next;
        k := k + 1;
      }
      NotStored(t, p, key, k);
      StoreKeeps(t, p, key, k);
      FreeFilled(t, p, address, key);
      slots[address] := Some(key);
      i := address;
    }
  }

  lemma FirstProbe(key: CString, p: nat)
    requires p >= 2
    ensures Slot(key, p, 0) == HashStart(key, p)
  {
  }

  lemma NextProbe(key: CString, p: nat, k: nat)
    requires p >= 2
    ensures Slot(key, p, k + 1) == Down(Slot(key, p, k), HashStep(key, p), p)
  {
  }

  lemma Found(t: Slots, p: nat, key: CString, i: nat)
    requires i < p <= |t| && t[i] == Some(key)
    ensures Stored(t, p, key)
  {
  }

  lemma {:induction false} AllFree(t: Slots, n: nat)
    requires n <= |t| && forall i :: 0 <= i < n ==> t[i].None?
    ensures Free(t, n) == n
  {
    if n > 0 { AllFree(t, n - 1); }
  }

  // ---- runs of searches ----

  /** Strings are only ever added. */
  ghost predicate Grows(t: Slots, t': Slots)
  {
    |t| == |t'| && forall i :: 0 <= i < |t| && t[i].Some? ==> t'[i] == t[i]
  }

  lemma GrowsTrans(t: Slots, t': Slots, t'': Slots)
    requires Grows(t, t') && Grows(t', t'')
    ensures Grows(t, t'')
  {
  }

  /** The strings of ks that are not stored yet. */
  ghost function Missing(t: Slots, p: nat, ks: set<CString>): (m: set<CString>)
  {
    set k | k in ks && !Stored(t, p, k)
  }

  /** There is a free slot for each string of ks that is not stored, and spare slots beside them. */
  ghost predicate Room(t: Slots, p: nat, ks: set<CString>, spare: nat)
  {
    p <= |t| && |Missing(t, p, ks)| + spare <= Free(t, p)
  }

  lemma RoomForOne(t: Slots, p: nat, ks: set<CString>, spare: nat, key: CString)
    requires Room(t, p, ks, spare) && key in ks
    ensures p <= |t| && (Free(t, p) >= 1 + spare || Stored(t, p, key))
  {
    hide Free, Stored;
    if !Stored(t, p, key) {
      assert key in Missing(t, p, ks);
    }
  }

  /** Storing a missing string takes one slot and leaves one string less to store. */
  lemma RoomStep(t: Slots, p: nat, ks: set<CString>, spare: nat, i: nat, key: CString)
    requires Room(t, p, ks, spare) && key in ks && !Stored(t, p, key) && i < p && t[i].None?
    ensures Room(t[i := Some(key)], p, ks, spare)
  {
    hide Free, Stored;
    var t' := t[i := Some(key)];
    FreeFilled(t, p, i, key);
    forall k | k in ks && k != key ensures Stored(t', p, k) == Stored(t, p, k) { StoredElsewhere(t, p, i, key, k); }
    Found(t', p, key, i);
    assert Missing(t', p, ks) == Missing(t, p, ks) - {key};
  }

  lemma StoredElsewhere(t: Slots, p: nat, i: nat, key: CString, k: CString)
    requires i < p <= |t| && t[i].None? && k != key
    ensures Stored(t[i := Some(key)], p, k) == Stored(t, p, k)
  {
    var t' := t[i := Some(key)];
    if Stored(t, p, k) {
      var j: nat :| j < p && j < |t| && t[j] == Some(k);
      assert t'[j] == Some(k);
    }
    if Stored(t', p, k) {
      var j: nat :| j < p && j < |t'| && t'[j] == Some(k);
      assert t[j] == Some(k);
    }
  }

  /** search_name_hashtable among searches for the strings of ks: there is room for them before and after. */
  method Intern(table: NameTable, key: CString, ghost ks: set<CString>) returns (i: nat)
    requires table.Valid() && Room(table.slots[..], NAME_HASH_PRIME, ks, 0) && key in ks
    modifies table.slots
    ensures table.Valid() && Room(table.slots[..], NAME_HASH_PRIME, ks, 0) &&
      Grows(old(table.slots[..]), table.slots[..])
    ensures i < NAME_HASH_PRIME < table.slots.Length && table.slots[i] == Some(key)
  {
    hide Free, Placed, Prime, Stored, Room;
    ghost var t := table.slots[..];
    RoomForOne(t, NAME_HASH_PRIME, ks, 0, key);
    i := table.Search(key);
    if !Stored(t, NAME_HASH_PRIME, key) { RoomStep(t, NAME_HASH_PRIME, ks, 0, i, key); }
  }

  ghost function Elements(keys: seq<CString>): (ks: set<CString>)
  {
    set k | k in keys
  }

  /** A whole run of searches: equal strings get equal indices, different strings different ones, and nothing stored
      before is moved. There must be a free slot for each string that is not stored yet; strings may be asked for any
      number of times. */
  method SearchAll(table: NameTable, keys: seq<CString>) returns (ids: seq<nat>)
    requires table.Valid() && Room(table.slots[..], NAME_HASH_PRIME, Elements(keys), 0)
    modifies table.slots
    ensures table.Valid() && |ids| == |keys| && Grows(old(table.slots[..]), table.slots[..])
    ensures forall i :: 0 <= i < |ids| ==> ids[i] < NAME_HASH_PRIME && table.slots[ids[i]] == Some(keys[i])
    ensures forall i, j :: 0 <= i < |ids| && 0 <= j < |ids| ==> (ids[i] == ids[j] <==> keys[i] == keys[j])
  {
    hide Placed, Prime, Room;
    ghost var t0 := table.slots[..];
    ids := [];
    while |ids| < |keys|
      invariant table.Valid() && |ids| <= |keys| && Grows(t0, table.slots[..])
      invariant Room(table.slots[..], NAME_HASH_PRIME, Elements(keys), 0)
      invariant forall i :: 0 <= i < |ids| ==> ids[i] < NAME_HASH_PRIME && table.slots[ids[i]] == Some(keys[i])
    {
      ghost var t := table.slots[..];
      var id := Intern(table, keys[|ids|], Elements(keys));
      GrowsTrans(t0, t, table.slots[..]);
      assert forall i :: 0 <= i < |ids| ==> t[ids[i]] == Some(keys[i]);
      ids := ids + [id];
    }
    forall i, j | 0 <= i < |ids| && 0 <= j < |ids| ensures ids[i] == ids[j] <==> keys[i] == keys[j] {
      if keys[i] == keys[j] { OnePlace(table.slots[..], NAME_HASH_PRIME, ids[i], ids[j]); }
    }
  }
}
