/** The order of Debian version strings (section 5.6.12 of the Debian Policy Manual): each
    string has a key, a sequence of numbers, and keys compare like infinite sequences. */
module VersionKey {
  import opened Bits

  predicate IsDigit(c: byte) { '0' as int <= c <= '9' as int }

  predicate IsAlpha(c: byte) { 'a' as int <= c <= 'z' as int || 'A' as int <= c <= 'Z' as int }

  /** order of dpkg.c: letters before other characters, '~' before everything, even the end. */
  function Order(c: byte): (o: int)
    ensures o == 0 <==> c == 0 || IsDigit(c)
  {
    if c == '~' as int then -1
    else if c == 0 || IsDigit(c) then 0
    else if IsAlpha(c) then c
    else c + 256
  }

  /** Among characters that are neither digits nor the end, only equal ones have equal order. */
  lemma OrderInjective(c: byte, d: byte)
    requires Order(c) == Order(d) != 0
    ensures c == d
  {
  }

  // ---- numbers ----

  /** The length of the digits that s starts with, and of the other characters. */
  function Digits(s: seq<byte>): (n: nat)
    ensures n <= |s| && (forall i :: 0 <= i < n ==> IsDigit(s[i])) && (n < |s| ==> !IsDigit(s[n]))
  {
    if s != [] && IsDigit(s[0]) then 1 + Digits(s[1..]) else 0
  }

  function NonDigits(s: seq<byte>): (n: nat)
    ensures n <= |s| && (forall i :: 0 <= i < n ==> !IsDigit(s[i])) && (n < |s| ==> IsDigit(s[n]))
  {
    if s != [] && !IsDigit(s[0]) then 1 + NonDigits(s[1..]) else 0
  }

  /** The value of a string of digits; 0 if there are none. */
  function Value(s: seq<byte>): (v: nat)
    requires forall i :: 0 <= i < |s| ==> IsDigit(s[i])
  {
    if s == [] then 0 else
    assert IsDigit(s[|s| - 1]);
    10 * Value(s[..|s| - 1]) + (s[|s| - 1] - '0' as int)
  }

  // ---- keys ----

  function Orders(s: seq<byte>): (o: seq<int>)
    ensures |o| == |s|
  {
    if s == [] then [] else [Order(s[0])] + Orders(s[1..])
  }

  predicate StartsWithDigit(s: seq<byte>) { s != [] && IsDigit(s[0]) }

  /** The key of a string read from its non-digits on: their orders, 0 for their end, a number, and so on. */
  function Key(s: seq<byte>): (k: seq<int>)
    decreases |s|, if StartsWithDigit(s) then 1 else 0
  {
    if s == [] then [] else
    var n := NonDigits(s);
    Orders(s[..n]) + [0] + NumberKey(s[n..])
  }

  /** The key of a string read from a number on. */
  function NumberKey(s: seq<byte>): (k: seq<int>)
    decreases |s|, if StartsWithDigit(s) then 0 else 1
  {
    [Value(s[..Digits(s)])] + Key(s[Digits(s)..])
  }

  /** Key, but with the 0 and the number that the end of the string stands for. */
  function FullKey(s: seq<byte>): (k: seq<int>)
  {
    Orders(s[..NonDigits(s)]) + [0] + NumberKey(s[NonDigits(s)..])
  }

  lemma FullKeyNonDigit(s: seq<byte>)
    requires s != [] && !IsDigit(s[0])
    ensures FullKey(s) == [Order(s[0])] + FullKey(s[1..])
  {
    hide NumberKey;
    var n := NonDigits(s[1..]);
    assert s[..n + 1][1..] == s[1..][..n] && s[n + 1..] == s[1..][n..];
    var o, t, u := [Order(s[0])], Orders(s[1..][..n]), NumberKey(s[n + 1..]);
    assert (o + t) + [0] + u == o + (t + [0] + u);
  }

  lemma FullKeyDigit(s: seq<byte>)
    requires s == [] || IsDigit(s[0])
    ensures FullKey(s) == [0] + NumberKey(s)
  {
    hide NumberKey;
    assert s[..0] == [] && s[0..] == s;
    assert [] + [0] + NumberKey(s) == [0] + NumberKey(s);
  }

  // ---- comparing keys ----

  function Head(a: seq<int>): (x: int) { if a == [] then 0 else a[0] }

  function Tail(a: seq<int>): (r: seq<int>) { if a == [] then [] else a[1..] }

  /** Lexicographic order of two sequences that go on with zeros for ever: -1, 0 or 1. */
  function Compare(a: seq<int>, b: seq<int>): (r: int)
    ensures -1 <= r <= 1
    decreases |a| + |b|
  {
    if a == [] && b == [] then 0
    else if Head(a) != Head(b) then (if Head(a) < Head(b) then -1 else 1)
    else Compare(Tail(a), Tail(b))
  }

  lemma {:induction false} CompareRefl(a: seq<int>)
    ensures Compare(a, a) == 0
  {
    if a != [] { CompareRefl(a[1..]); }
  }

  lemma {:induction false} CompareAnti(a: seq<int>, b: seq<int>)
    ensures Compare(a, b) == -Compare(b, a)
    decreases |a| + |b|
  {
    if !(a == [] && b == []) { CompareAnti(Tail(a), Tail(b)); }
  }

  lemma {:induction false} CompareTrans(a: seq<int>, b: seq<int>, c: seq<int>)
    requires Compare(a, b) <= 0 && Compare(b, c) <= 0
    ensures Compare(a, c) <= 0
    ensures Compare(a, b) < 0 || Compare(b, c) < 0 ==> Compare(a, c) < 0
    decreases |a| + |b| + |c|
  {
    if a != [] || b != [] || c != [] {
      if Head(a) == Head(b) == Head(c) {
        Unroll(a, b);
        Unroll(b, c);
        Unroll(a, c);
        CompareTrans(Tail(a), Tail(b), Tail(c));
      }
    }
  }

  /** One step, also when nothing is left of both. */
  lemma Unroll(a: seq<int>, b: seq<int>)
    ensures Compare(a, b) == if Head(a) != Head(b) then (if Head(a) < Head(b) then -1 else 1)
      else Compare(Tail(a), Tail(b))
  {
  }

  /** The end of a string counts as a 0 and the number 0. */
  lemma CompareFull(s: seq<byte>, r: seq<byte>)
    ensures Compare(Key(s), Key(r)) == Compare(FullKey(s), FullKey(r))
  {
    hide NumberKey;
    if s == [] || r == [] { EmptyKey(); }
    if s == [] { TwoZeros(Key(r)); }
    if r == [] {
      TwoZeros(FullKey(s));
      CompareAnti(FullKey(s), [0, 0]);
      CompareAnti(FullKey(s), []);
    }
  }

  lemma EmptyKey()
    ensures FullKey([]) == [0, 0] && Key([]) == []
  {
  }

  lemma TwoZeros(b: seq<int>)
    ensures Compare([0, 0], b) == Compare([], b)
  {
    Unroll([0, 0], b);
    Unroll([], b);
    Unroll([0], Tail(b));
    Unroll([], Tail(b));
    assert Tail([0, 0]) == [0] && Tail([0]) == [];
  }

  // ---- comparing numbers ----

  function Pow10(n: nat): (p: nat)
    ensures p >= 1
  {
    if n == 0 then 1 else 10 * Pow10(n - 1)
  }

  lemma {:induction false} Pow10Mono(m: nat, n: nat)
    requires m <= n
    ensures Pow10(m) <= Pow10(n)
  {
    if m < n { Pow10Mono(m, n - 1); }
  }

  lemma {:induction false} ValueBelow(s: seq<byte>)
    requires forall i :: 0 <= i < |s| ==> IsDigit(s[i])
    ensures Value(s) < Pow10(|s|)
    decreases |s|
  {
    if s != [] {
      ValueBelow(s[..|s| - 1]);
      assert IsDigit(s[|s| - 1]);
    }
  }

  lemma {:induction false} ValueAbove(s: seq<byte>)
    requires s != [] && s[0] != '0' as int && forall i :: 0 <= i < |s| ==> IsDigit(s[i])
    ensures Value(s) >= Pow10(|s| - 1)
    decreases |s|
  {
    assert IsDigit(s[|s| - 1]) && IsDigit(s[0]);
    if |s| > 1 { ValueAbove(s[..|s| - 1]); }
  }

  /** Without leading zeros, the longer number is larger. */
  lemma LongerIsLarger(a: seq<byte>, b: seq<byte>)
    requires (forall i :: 0 <= i < |a| ==> IsDigit(a[i])) && forall i :: 0 <= i < |b| ==> IsDigit(b[i])
    requires |a| > |b| && a[0] != '0' as int
    ensures Value(a) > Value(b)
  {
    ValueAbove(a);
    ValueBelow(b);
    Pow10Mono(|b|, |a| - 1);
  }

  lemma {:induction false} LeadingZero(s: seq<byte>)
    requires s != [] && s[0] == '0' as int && forall i :: 0 <= i < |s| ==> IsDigit(s[i])
    ensures Value(s) == Value(s[1..])
    decreases |s|
  {
    if |s| > 1 {
      LeadingZero(s[..|s| - 1]);
      assert s[..|s| - 1][1..] == s[1..][..|s| - 2];
    }
  }

  lemma NumberKeyZero(s: seq<byte>)
    requires s != [] && s[0] == '0' as int
    ensures NumberKey(s) == NumberKey(s[1..])
  {
    hide Key;
    var d := Digits(s);
    LeadingZero(s[..d]);
    assert s[..d][1..] == s[1..][..d - 1] && s[d..] == s[1..][d - 1..];
  }

  lemma ValuePush(s: seq<byte>, m: nat)
    requires m < |s| && forall i :: 0 <= i <= m ==> IsDigit(s[i])
    ensures Value(s[..m + 1]) == 10 * Value(s[..m]) + (s[m] - '0' as int)
  {
    assert s[..m + 1][..m] == s[..m];
  }

  // ---- when two strings are equal ----

  /** An entry of a key, which goes on with zeros for ever. */
  function At(a: seq<int>, i: nat): (x: int) { if i < |a| then a[i] else 0 }

  /** Keys compare equal exactly if they agree up to trailing zeros. */
  lemma {:induction false} EqualKeys(a: seq<int>, b: seq<int>)
    ensures Compare(a, b) == 0 <==> forall i: nat :: At(a, i) == At(b, i)
    decreases |a| + |b|
  {
    if a != [] || b != [] {
      EqualKeys(Tail(a), Tail(b));
      assert At(a, 0) == Head(a) && At(b, 0) == Head(b);
      assert forall i: nat :: At(Tail(a), i) == At(a, i + 1) && At(Tail(b), i) == At(b, i + 1);
      if forall i: nat :: At(a, i) == At(b, i) {
        forall i: nat ensures At(Tail(a), i) == At(Tail(b), i) { assert At(a, i + 1) == At(b, i + 1); }
      }
      if Head(a) == Head(b) && forall i: nat :: At(Tail(a), i) == At(Tail(b), i) {
        forall i: nat ensures At(a, i) == At(b, i) { if i > 0 { assert At(Tail(a), i - 1) == At(Tail(b), i - 1); } }
      }
    }
  }

  /** The number after the first non-digits, and what follows it. */
  function Number(s: seq<byte>): (v: nat)
  {
    var t := s[NonDigits(s)..];
    Value(t[..Digits(t)])
  }

  function AfterNumber(s: seq<byte>): (r: seq<byte>)
    ensures |r| <= |s| && (s != [] ==> |r| < |s|)
  {
    var t := s[NonDigits(s)..];
    t[Digits(t)..]
  }

  /** The same non-digit parts with numbers of the same value between them; a string that has ended goes on with
      empty parts and zeros. */
  predicate SameParts(s: seq<byte>, r: seq<byte>)
    decreases |s| + |r|
  {
    (s == [] && r == []) ||
    (s[..NonDigits(s)] == r[..NonDigits(r)] && Number(s) == Number(r) && SameParts(AfterNumber(s), AfterNumber(r)))
  }

  /** Non-digits with a weight can be told from their weights. */
  lemma {:induction false} CompareOrders(u: seq<byte>, v: seq<byte>, x: seq<int>, y: seq<int>)
    requires (forall i :: 0 <= i < |u| ==> Order(u[i]) != 0) && forall i :: 0 <= i < |v| ==> Order(v[i]) != 0
    ensures Compare(Orders(u) + [0] + x, Orders(v) + [0] + y) == 0 <==> u == v && Compare(x, y) == 0
    decreases |u|
  {
    hide Compare, Order;
    var a, b := Orders(u) + [0] + x, Orders(v) + [0] + y;
    Unroll(a, b);
    if u != [] && v != [] {
      assert Tail(a) == Orders(u[1..]) + [0] + x && Tail(b) == Orders(v[1..]) + [0] + y;
      CompareOrders(u[1..], v[1..], x, y);
      if Order(u[0]) == Order(v[0]) { OrderInjective(u[0], v[0]); }
      assert u == [u[0]] + u[1..] && v == [v[0]] + v[1..];
    } else if u == [] && v == [] {
      assert Tail(a) == x && Tail(b) == y;
    }
  }

  /** The key of a string with its first number split off. */
  lemma FullKeySplit(s: CString)
    ensures FullKey(s) == Orders(s[..NonDigits(s)]) + [0] + ([Number(s)] + Key(AfterNumber(s)))
    ensures forall i :: 0 <= i < NonDigits(s) ==> Order(s[i]) != 0
  {
    hide Key, Orders;
    forall i | 0 <= i < NonDigits(s) ensures Order(s[i]) != 0 { assert s[i] in s; }
  }

  /** Strings compare equal exactly if they have the same parts: leading zeros and trailing empty numbers do not
      count. */
  lemma {:induction false} EqualStrings(s: CString, r: CString)
    ensures Compare(Key(s), Key(r)) == 0 <==> SameParts(s, r)
    decreases |s| + |r|
  {
    hide Key, FullKey, Compare, Number, AfterNumber, Orders, Order;
    if s == [] && r == [] {
      CompareRefl(Key(s));
    } else {
      CompareFull(s, r);
      FullKeySplit(s);
      FullKeySplit(r);
      var x, y := [Number(s)] + Key(AfterNumber(s)), [Number(r)] + Key(AfterNumber(r));
      CompareOrders(s[..NonDigits(s)], r[..NonDigits(r)], x, y);
      Unroll(x, y);
      assert Tail(x) == Key(AfterNumber(s)) && Tail(y) == Key(AfterNumber(r));
      AfterIsPart(s);
      AfterIsPart(r);
      EqualStrings(AfterNumber(s), AfterNumber(r));
    }
  }

  lemma AfterIsPart(s: CString)
    ensures 0 !in AfterNumber(s)
  {
  }
}
