/** Version comparison of dpkg.c. */
module DpkgVersion {
  import opened Bits
  import opened VersionKey

  function Sign(x: int): (s: int)
  {
    if x < 0 then -1 else if x > 0 then 1 else 0
  }

  /** The character at index i; the terminator at the end. */
  function At(s: seq<byte>, i: nat): (c: byte)
  {
    if i < |s| then s[i] else 0
  }

  lemma Peel(s: CString, i: nat)
    requires i <= |s|
    ensures FullKey(s[i..]) != [] && FullKey(s[i..])[0] == Order(At(s, i))
    ensures Order(At(s, i)) != 0 ==> i < |s| && FullKey(s[i..])[1..] == FullKey(s[i + 1..])
    ensures Order(At(s, i)) == 0 ==> FullKey(s[i..])[1..] == NumberKey(s[i..])
  {
    hide FullKey, NumberKey;
    if i < |s| {
      assert s[i] in s;
      assert s[i..][0] == s[i] && s[i..][1..] == s[i + 1..];
    }
    if Order(At(s, i)) != 0 { FullKeyNonDigit(s[i..]); } else { FullKeyDigit(s[i..]); }
  }

  /** The loop over characters that are not digits. */
  method CompareNonDigits(v: CString, w: CString, i0: nat, j0: nat) returns (r: int, i: nat, j: nat)
    requires i0 <= |v| && j0 <= |w|
    ensures i0 <= i <= |v| && j0 <= j <= |w|
    ensures r != 0 ==> Sign(r) == Compare(FullKey(v[i0..]), FullKey(w[j0..]))
    ensures r == 0 ==> Compare(FullKey(v[i0..]), FullKey(w[j0..])) == Compare(NumberKey(v[i..]), NumberKey(w[j..]))
    ensures r == 0 ==> Order(At(v, i)) == 0 && Order(At(w, j)) == 0
    ensures r == 0 && IsDigit(At(v, i0)) ==> i == i0
    ensures r == 0 && i0 < |v| && !IsDigit(At(v, i0)) ==> i > i0
    ensures r == 0 && j0 < |w| && !IsDigit(At(w, j0)) ==> j > j0
  {
    hide FullKey, NumberKey, Compare;
    i, j, r := i0, j0, 0;
    while (i < |v| && !IsDigit(v[i])) || (j < |w| && !IsDigit(w[j]))
      invariant i0 <= i <= |v| && j0 <= j <= |w| && i - i0 == j - j0
      invariant Compare(FullKey(v[i0..]), FullKey(w[j0..])) == Compare(FullKey(v[i..]), FullKey(w[j..]))
      invariant i > i0 ==> i0 < |v| && j0 < |w| && !IsDigit(v[i0]) && !IsDigit(w[j0])
      decreases |v| - i
    {
      var vc, rc := Order(At(v, i)), Order(At(w, j));
      Peel(v, i);
      Peel(w, j);
      Unroll(FullKey(v[i..]), FullKey(w[j..]));
      NotEnd(v, i);
      NotEnd(w, j);
      if vc != rc { return vc - rc, i, j; }
      i, j := i + 1, j + 1;
    }
    NotEnd(v, i);
    NotEnd(w, j);
    Peel(v, i);
    Peel(w, j);
    Unroll(FullKey(v[i..]), FullKey(w[j..]));
  }

  lemma NotEnd(s: CString, i: nat)
    ensures i < |s| ==> s[i] != 0
  {
    if i < |s| { assert s[i] in s; }
  }

  method SkipZeros(s: CString, i0: nat) returns (i: nat)
    requires i0 <= |s|
    ensures i0 <= i <= |s| && At(s, i) != '0' as int && NumberKey(s[i..]) == NumberKey(s[i0..])
    ensures At(s, i0) == '0' as int ==> i > i0
  {
    hide NumberKey;
    i := i0;
    while i < |s| && s[i] == '0' as int
      invariant i0 <= i <= |s| && NumberKey(s[i..]) == NumberKey(s[i0..])
      invariant i == i0 ==> At(s, i0) == At(s, i)
    {
      assert s[i..][1..] == s[i + 1..];
      NumberKeyZero(s[i..]);
      i := i + 1;
    }
  }

  /** m common digits, and the sign of their difference. */
  method CommonDigits(v: CString, w: CString, i0: nat, j0: nat) returns (firstDiff: int, m: nat)
    requires i0 <= |v| && j0 <= |w|
    ensures i0 + m <= |v| && j0 + m <= |w| && m <= Digits(v[i0..]) && m <= Digits(w[j0..])
    ensures Sign(firstDiff) == Sign(Value(v[i0..][..m]) - Value(w[j0..][..m]))
    ensures !(IsDigit(At(v, i0 + m)) && IsDigit(At(w, j0 + m)))
  {
    hide Value;
    ghost var a, b := v[i0..], w[j0..];
    NoDigits(a[..0]);
    NoDigits(b[..0]);
    firstDiff, m := 0, 0;
    while i0 + m < |v| && j0 + m < |w| && IsDigit(v[i0 + m]) && IsDigit(w[j0 + m])
      invariant i0 + m <= |v| && j0 + m <= |w| && m <= Digits(a) && m <= Digits(b)
      invariant Sign(firstDiff) == Sign(Value(a[..m]) - Value(b[..m]))
    {
      assert v[i0 + m] == a[m] && w[j0 + m] == b[m];
      ValuePush(a, m);
      ValuePush(b, m);
      if firstDiff == 0 { firstDiff := v[i0 + m] as int - w[j0 + m]; }
      m := m + 1;
    }
  }

  lemma NoDigits(s: seq<byte>)
    requires s == []
    ensures Value(s) == 0
  {
  }

  lemma NumbersDiffer(a: seq<byte>, b: seq<byte>)
    requires Digits(a) > Digits(b) && a[0] != '0' as int
    ensures Compare(NumberKey(a), NumberKey(b)) == 1 && Compare(NumberKey(b), NumberKey(a)) == -1
  {
    hide Key, Compare;
    LongerIsLarger(a[..Digits(a)], b[..Digits(b)]);
    Unroll(NumberKey(a), NumberKey(b));
    Unroll(NumberKey(b), NumberKey(a));
  }

  lemma NumbersMeet(a: seq<byte>, b: seq<byte>, m: nat)
    requires Digits(a) == m == Digits(b)
    ensures var d := Value(a[..m]) - Value(b[..m]);
            Compare(NumberKey(a), NumberKey(b)) == if d != 0 then Sign(d) else Compare(Key(a[m..]), Key(b[m..]))
  {
    hide Key, Compare;
    Unroll(NumberKey(a), NumberKey(b));
  }

  /** The loop over digits, after leading zeros have been skipped. */
  method CompareNumbers(v: CString, w: CString, i0: nat, j0: nat) returns (r: int, i: nat, j: nat)
    requires i0 <= |v| && j0 <= |w| && At(v, i0) != '0' as int && At(w, j0) != '0' as int
    ensures i0 <= i <= |v| && j0 <= j <= |w|
    ensures r != 0 ==> Sign(r) == Compare(NumberKey(v[i0..]), NumberKey(w[j0..]))
    ensures r == 0 ==> Compare(NumberKey(v[i0..]), NumberKey(w[j0..])) == Compare(Key(v[i..]), Key(w[j..]))
    ensures r == 0 ==> (IsDigit(At(v, i0)) ==> i > i0) && (IsDigit(At(w, j0)) ==> j > j0)
  {
    hide Key, Compare, NumberKey, Value, Digits;
    ghost var a, b := v[i0..], w[j0..];
    var firstDiff, m := CommonDigits(v, w, i0, j0);
    i, j := i0 + m, j0 + m;
    DigitAt(v, i0, m);
    DigitAt(w, j0, m);
    if IsDigit(At(v, i)) {
      NumbersDiffer(a, b);
      return 1, i, j;
    }
    if IsDigit(At(w, j)) {
      NumbersDiffer(b, a);
      return -1, i, j;
    }
    NumbersMeet(a, b, m);
    assert a[m..] == v[i..] && b[m..] == w[j..];
    r := firstDiff;
  }

  lemma DigitAt(v: CString, i: nat, m: nat)
    requires i + m <= |v| && m <= Digits(v[i..])
    ensures IsDigit(At(v, i + m)) <==> m < Digits(v[i..])
    ensures m == 0 && m < Digits(v[i..]) ==> IsDigit(At(v, i))
    ensures Digits(v[i..]) > 0 ==> v[i..] != [] && v[i..][0] == At(v, i)
    ensures IsDigit(At(v, i)) ==> Digits(v[i..]) > 0
  {
    var a := v[i..];
    if m < |a| { assert a[m] == v[i + m]; }
    if |a| > 0 { assert a[0] == v[i]; }
  }

  function Text(s: Option<CString>): (t: CString)
  {
    if s.Some? then s.value else []
  }

  /** version_compare_part: the sign of the result is the order of the keys. */
  method VersionComparePart(val: Option<CString>, ref: Option<CString>) returns (r: int)
    ensures Sign(r) == Compare(Key(Text(val)), Key(Text(ref)))
  {
    hide Key, FullKey, NumberKey, Compare;
    var v, w := Text(val), Text(ref);
    var i, j := 0, 0;
    assert v[0..] == v && w[0..] == w;
    while i < |v| || j < |w|
      invariant 0 <= i <= |v| && 0 <= j <= |w| && Compare(Key(v), Key(w)) == Compare(Key(v[i..]), Key(w[j..]))
      decreases |v| - i + |w| - j
    {
      ghost var i0, j0 := i, j;
      CompareFull(v[i..], w[j..]);
      r, i, j := CompareNonDigits(v, w, i, j);
      if r != 0 { return; }
      i := SkipZeros(v, i);
      j := SkipZeros(w, j);
      r, i, j := CompareNumbers(v, w, i, j);
      if r != 0 { return; }
    }
    r := 0;
    EmptyCompare();
    assert v[i..] == [] && w[j..] == [];
  }

  lemma EmptyCompare()
    ensures Key([]) == [] && Compare([], []) == 0
  {
  }

  // ---- whole versions ----

  /** The index of the first c in s from i on; |s| for none. */
  function FindChar(s: seq<byte>, c: byte, i: nat): (k: nat)
    requires i <= |s|
    ensures i <= k <= |s| && (k < |s| ==> s[k] == c) && forall j :: i <= j < k ==> s[j] != c
    decreases |s| - i
  {
    if i == |s| || s[i] == c then i else FindChar(s, c, i + 1)
  }

  /** The index of the last c in s before n; -1 for none. */
  function FindLast(s: seq<byte>, c: byte, n: nat): (k: int)
    requires n <= |s|
    ensures -1 <= k < n && (k >= 0 ==> s[k] == c) && forall j :: k < j < n ==> s[j] != c
  {
    if n == 0 then -1 else if s[n - 1] == c then n - 1 else FindLast(s, c, n - 1)
  }

  predicate IsSpace(c: byte) { c == 32 || 9 <= c <= 13 }

  function SkipSpace(s: seq<byte>): (r: seq<byte>)
  {
    if s != [] && IsSpace(s[0]) then SkipSpace(s[1..]) else s
  }

  /** atoi, for values that an int can hold. */
  function Atoi(s: seq<byte>): (v: int)
  {
    var t := SkipSpace(s);
    if t == [] then 0
    else if t[0] == '-' as int then -(Value(t[1..][..Digits(t[1..])]) as int)
    else if t[0] == '+' as int then Value(t[1..][..Digits(t[1..])])
    else Value(t[..Digits(t)])
  }

  /** A version taken apart: the epoch as an unsigned number, the upstream version and the Debian revision. */
  datatype Version = Version(epoch: nat, upstream: CString, revision: Option<CString>)

  function Split(s: CString): (v: Version)
  {
    var colon := FindChar(s, ':' as int, 0);
    var epoch := if colon < |s| then Atoi(s) % 0x1_0000_0000 else 0;
    var rest: CString := if colon < |s| then s[colon + 1..] else s;
    var dash := FindLast(rest, '-' as int, |rest|);
    if dash >= 0 then Version(epoch, rest[..dash], Some(rest[dash + 1..])) else Version(epoch, rest, None)
  }

  /** The order of versions: epoch, then upstream version, then revision; a missing revision is an empty one. */
  function CompareVersions(a: CString, b: CString): (r: int)
    ensures -1 <= r <= 1
  {
    var v, w := Split(a), Split(b);
    if v.epoch != w.epoch then (if v.epoch < w.epoch then -1 else 1)
    else
      var u := Compare(Key(v.upstream), Key(w.upstream));
      if u != 0 then u else Compare(Key(Text(v.revision)), Key(Text(w.revision)))
  }

  /** version_compare, on the strings the two indices name. */
  method VersionCompare(a: CString, b: CString) returns (r: int)
    ensures Sign(r) == CompareVersions(a, b)
  {
    hide Compare, Key;
    var v, w := Split(a), Split(b);
    if v.epoch < w.epoch { return -1; }
    if v.epoch > w.epoch { return 1; }
    r := VersionComparePart(Some(v.upstream), Some(w.upstream));
    if r == 0 { r := VersionComparePart(v.revision, w.revision); }
  }

  lemma VersionsRefl(a: CString)
    ensures CompareVersions(a, a) == 0
  {
    CompareRefl(Key(Split(a).upstream));
    CompareRefl(Key(Text(Split(a).revision)));
  }

  lemma VersionsAnti(a: CString, b: CString)
    ensures CompareVersions(a, b) == -CompareVersions(b, a)
  {
    hide Compare, Key;
    CompareAnti(Key(Split(a).upstream), Key(Split(b).upstream));
    CompareAnti(Key(Text(Split(a).revision)), Key(Text(Split(b).revision)));
  }

  lemma VersionsTrans(a: CString, b: CString, c: CString)
    requires CompareVersions(a, b) <= 0 && CompareVersions(b, c) <= 0
    ensures CompareVersions(a, c) <= 0
    ensures CompareVersions(a, b) < 0 || CompareVersions(b, c) < 0 ==> CompareVersions(a, c) < 0
  {
    hide Compare, Key, Split;
    var u, v, w := Split(a), Split(b), Split(c);
    if u.epoch == v.epoch == w.epoch {
      CompareTrans(Key(u.upstream), Key(v.upstream), Key(w.upstream));
      if Compare(Key(u.upstream), Key(v.upstream)) == 0 && Compare(Key(v.upstream), Key(w.upstream)) == 0 {
        CompareAnti(Key(u.upstream), Key(v.upstream));
        CompareAnti(Key(v.upstream), Key(w.upstream));
        CompareTrans(Key(w.upstream), Key(v.upstream), Key(u.upstream));
        CompareAnti(Key(u.upstream), Key(w.upstream));
        CompareTrans(Key(Text(u.revision)), Key(Text(v.revision)), Key(Text(w.revision)));
      }
    }
  }

  /** Versions compare equal exactly if their epochs are equal and the parts of both strings are the same. */
  lemma VersionsEqual(a: CString, b: CString)
    ensures CompareVersions(a, b) == 0 <==>
      Split(a).epoch == Split(b).epoch && SameParts(Split(a).upstream, Split(b).upstream) &&
      SameParts(Text(Split(a).revision), Text(Split(b).revision))
  {
    hide Compare, Key, SameParts;
    EqualStrings(Split(a).upstream, Split(b).upstream);
    EqualStrings(Text(Split(a).revision), Text(Split(b).revision));
  }

  // ---- relations ----

  datatype Operator = Null | Equal | Less | LessEqual | More | MoreEqual | Any

  /** What a relation between two versions means. */
  function Holds(a: CString, b: CString, op: Operator): (r: bool)
  {
    var c := CompareVersions(a, b);
    match op
    case Any => true
    case Equal => c == 0
    case Less => c < 0
    case LessEqual => c <= 0
    case More => c > 0
    case MoreEqual => c >= 0
    case Null => false
  }

  /** test_version. */
  method TestVersion(a: CString, b: CString, op: Operator) returns (r: bool)
    ensures r == Holds(a, b, op)
  {
    hide CompareVersions;
    var c := VersionCompare(a, b);
    match op
    case Any => return true;
    case Equal => return c == 0;
    case Less => return c < 0;
    case LessEqual => return c <= 0;
    case More => return c > 0;
    case MoreEqual => return c >= 0;
    case Null => return false;
  }

  function Converse(op: Operator): (r: Operator)
  {
    match op
    case Less => More
    case More => Less
    case LessEqual => MoreEqual
    case MoreEqual => LessEqual
    case _ => op
  }

  /** The relations agree with each other: one and only one of <, = and > holds, the others follow, and each turns
      around. */
  lemma RelationsConsistent(a: CString, b: CString)
    ensures Holds(a, b, Less) || Holds(a, b, Equal) || Holds(a, b, More)
    ensures !(Holds(a, b, Less) && Holds(a, b, Equal)) && !(Holds(a, b, Less) && Holds(a, b, More)) &&
      !(Holds(a, b, Equal) && Holds(a, b, More))
    ensures Holds(a, b, LessEqual) == !Holds(a, b, More) == (Holds(a, b, Less) || Holds(a, b, Equal))
    ensures Holds(a, b, MoreEqual) == !Holds(a, b, Less) == (Holds(a, b, More) || Holds(a, b, Equal))
    ensures forall op :: Holds(a, b, op) == Holds(b, a, Converse(op))
  {
    hide CompareVersions;
    VersionsAnti(a, b);
  }

  /** Chains: a relation and one that is at least as weak in the same direction compose. */
  lemma RelationsCompose(a: CString, b: CString, c: CString)
    ensures Holds(a, b, LessEqual) && Holds(b, c, LessEqual) ==> Holds(a, c, LessEqual)
    ensures Holds(a, b, Less) && Holds(b, c, LessEqual) ==> Holds(a, c, Less)
    ensures Holds(a, b, LessEqual) && Holds(b, c, Less) ==> Holds(a, c, Less)
    ensures Holds(a, b, Equal) && Holds(b, c, Equal) ==> Holds(a, c, Equal)
  {
    hide CompareVersions;
    if CompareVersions(a, b) <= 0 && CompareVersions(b, c) <= 0 { VersionsTrans(a, b, c); }
    VersionsAnti(a, b);
    VersionsAnti(b, c);
    VersionsAnti(a, c);
    if CompareVersions(a, b) == 0 && CompareVersions(b, c) == 0 { VersionsTrans(c, b, a); }
  }
}
