/** Literals and <length, distance> pairs: what they expand to, how they are coded,
    how a decoder reads them back, and what they cost. */
module Tokens {
  import opened Bits
  import opened Limits
  import opened Canonical
  import opened Inflate
  import opened CodeCost
  import opened Sums
  import CT = CodeTables

  /** The tables of ct_init, as a value. */
  datatype Tab = Tab(lengthCode: seq<nat>, shortCode: seq<nat>, longCode: seq<nat>, baseLength: seq<nat>,
    baseDist: seq<nat>) {

    ghost predicate Valid()
    {
      |lengthCode| == 256 && |shortCode| == 256 && |longCode| == 256 && |baseLength| == 29 && |baseDist| == 30 &&
      (forall lc :: 0 <= lc < 256 ==>
        lengthCode[lc] < 29 && CT.LengthOk(lc, lengthCode[lc], baseLength[lengthCode[lc]])) &&
      (forall dist :: 0 <= dist < 0x8000 ==> DCode(dist) < 30 && CT.DistOk(dist, DCode(dist), baseDist[DCode(dist)]))
    }

    /** D_CODE of gzip.c: the code of distance 1 + dist. */
    function DCode(dist: nat): (c: nat)
      requires dist < 0x8000 && |shortCode| == 256 && |longCode| == 256
    {
      if dist < 256 then shortCode[dist] else longCode[dist / 128]
    }
  }

  /** An item the compressor can produce. */
  predicate ItemOk(item: Item)
  {
    item.Literal? || (item.Match? && MIN_MATCH <= item.len <= MAX_MATCH && 1 <= item.dist <= 0x8000)
  }

  predicate ItemsOk(items: seq<Item>) { forall i :: 0 <= i < |items| ==> ItemOk(items[i]) }

  /** The literal/length symbol of an item. */
  ghost function LSym(tab: Tab, item: Item): (s: nat)
    requires tab.Valid() && ItemOk(item)
    ensures s < L_CODES && s != END_OF_BLOCK
  {
    match item
    case Literal(b) => b
    case Match(len, dist) => 257 + tab.lengthCode[len - 3]
  }

  ghost function DSym(tab: Tab, item: Item): (s: nat)
    requires tab.Valid() && ItemOk(item) && item.Match?
    ensures s < D_CODES
  {
    tab.DCode(item.dist - 1)
  }

  /** Value of the extra length bits. */
  ghost function LExtra(tab: Tab, item: Item): (v: nat)
    requires tab.Valid() && ItemOk(item) && item.Match?
    ensures v < Pow2(LENGTH_EXTRA[tab.lengthCode[item.len - 3]])
  {
    var c := tab.lengthCode[item.len - 3];
    assert CT.LengthOk(item.len - 3, c, tab.baseLength[c]);
    if LENGTH_EXTRA[c] == 0 then 0 else item.len - 3 - tab.baseLength[c]
  }

  ghost function DExtra(tab: Tab, item: Item): (v: nat)
    requires tab.Valid() && ItemOk(item) && item.Match?
    ensures v < Pow2(DIST_EXTRA[DSym(tab, item)])
  {
    assert CT.DistOk(item.dist - 1, DSym(tab, item), tab.baseDist[DSym(tab, item)]);
    item.dist - 1 - tab.baseDist[DSym(tab, item)]
  }

  /** Codes exist for everything in item. */
  ghost predicate Codable(tab: Tab, ll: seq<nat>, dl: seq<nat>, item: Item)
    requires tab.Valid()
  {
    ItemOk(item) && LSym(tab, item) < |ll| && ll[LSym(tab, item)] > 0 &&
    (item.Match? ==> DSym(tab, item) < |dl| && dl[DSym(tab, item)] > 0)
  }

  ghost function ItemBits(tab: Tab, ll: seq<nat>, dl: seq<nat>, item: Item): (b: seq<bool>)
    requires tab.Valid() && Codable(tab, ll, dl, item)
  {
    match item
    case Literal(c) => CodeBits(ll, c)
    case Match(len, dist) =>
      var c, d := tab.lengthCode[len - 3], DSym(tab, item);
      CodeBits(ll, 257 + c) + (Lsb(LExtra(tab, item), LENGTH_EXTRA[c]) +
      (CodeBits(dl, d) + Lsb(DExtra(tab, item), DIST_EXTRA[d])))
  }

  ghost predicate AllCodable(tab: Tab, ll: seq<nat>, dl: seq<nat>, items: seq<Item>)
    requires tab.Valid()
  {
    forall i :: 0 <= i < |items| ==> Codable(tab, ll, dl, items[i])
  }

  ghost function DataBits(tab: Tab, ll: seq<nat>, dl: seq<nat>, items: seq<Item>): (b: seq<bool>)
    requires tab.Valid() && AllCodable(tab, ll, dl, items)
  {
    if items == [] then [] else ItemBits(tab, ll, dl, items[0]) + DataBits(tab, ll, dl, items[1..])
  }

  lemma {:induction false} DataBitsPush(tab: Tab, ll: seq<nat>, dl: seq<nat>, items: seq<Item>, item: Item)
    requires tab.Valid() && AllCodable(tab, ll, dl, items) && Codable(tab, ll, dl, item)
    ensures AllCodable(tab, ll, dl, items + [item])
    ensures DataBits(tab, ll, dl, items + [item]) == DataBits(tab, ll, dl, items) + ItemBits(tab, ll, dl, item)
    decreases |items|
  {
    hide ItemBits, Codable, Tab.Valid;
    var all := items + [item];
    if items == [] {
      assert all == [item] && all[1..] == [];
      assert ItemBits(tab, ll, dl, item) + [] == [] + ItemBits(tab, ll, dl, item);
    } else {
      assert all[0] == items[0] && all[1..] == items[1..] + [item];
      DataBitsPush(tab, ll, dl, items[1..], item);
      var h, x, y := ItemBits(tab, ll, dl, items[0]), DataBits(tab, ll, dl, items[1..]), ItemBits(tab, ll, dl, item);
      assert h + (x + y) == (h + x) + y;
    }
  }

  // ---- what items stand for ----

  /** A distance reaches back no further than the output. */
  predicate Applies(item: Item, out: seq<byte>)
  {
    item.Literal? || (item.Match? && 1 <= item.dist <= |out|)
  }

  function Apply(item: Item, out: seq<byte>): (r: seq<byte>)
    requires Applies(item, out)
  {
    if item.Literal? then out + [item.b] else Copy(out, item.dist, item.len)
  }

  predicate Fits(items: seq<Item>, out: seq<byte>)
    decreases |items|
  {
    items == [] || (Applies(items[0], out) && Fits(items[1..], Apply(items[0], out)))
  }

  /** The output after items have been applied to out. */
  function ExpandItems(items: seq<Item>, out: seq<byte>): (r: seq<byte>)
    requires Fits(items, out)
    decreases |items|
  {
    if items == [] then out else ExpandItems(items[1..], Apply(items[0], out))
  }

  lemma {:induction false} ExpandPush(items: seq<Item>, item: Item, out: seq<byte>)
    requires Fits(items, out) && Applies(item, ExpandItems(items, out))
    ensures Fits(items + [item], out)
    ensures ExpandItems(items + [item], out) == Apply(item, ExpandItems(items, out))
    decreases |items|
  {
    hide Apply, Applies;
    var all := items + [item];
    if items == [] {
      assert all == [item] && all[1..] == [];
    } else {
      assert all[0] == items[0] && all[1..] == items[1..] + [item];
      ExpandPush(items[1..], item, Apply(items[0], out));
    }
  }

  // ---- reading items back ----

  /** A length code, its extra bits, a distance code and its extra bits are read as one match. */
  lemma MatchReads(ll: seq<nat>, dl: seq<nat>, bits: seq<bool>, pos: nat, s: nat, x: nat, xl: nat, d: nat, y: nat,
                   yl: nat)
    requires Decodable(ll, 15) && Decodable(dl, 15) && 257 <= s <= 285 && s < |ll| && ll[s] > 0 && d <= 29 &&
      d < |dl| && dl[d] > 0
    requires xl == LENGTH_EXTRA[s - 257] && yl == DIST_EXTRA[d] && x < Pow2(xl) && y < Pow2(yl)
    requires At(bits, pos, CodeBits(ll, s) + (Lsb(x, xl) + (CodeBits(dl, d) + Lsb(y, yl))))
    ensures ReadItem(ll, dl, bits, pos) ==
            Some((Match(LENGTH_BASE[s - 257] + x, DIST_BASE[d] + y), pos + ll[s] + xl + dl[d] + yl))
  {
    hide Decodable, CodeBits, Lsb, At, Symbol, Number, Pow2, LENGTH_EXTRA, DIST_EXTRA, LENGTH_BASE, DIST_BASE;
    TableSizes();
    CodeLength(ll, s);
    CodeLength(dl, d);
    AtSplit(bits, pos, CodeBits(ll, s), Lsb(x, xl) + (CodeBits(dl, d) + Lsb(y, yl)));
    AtSplit(bits, pos + ll[s], Lsb(x, xl), CodeBits(dl, d) + Lsb(y, yl));
    AtSplit(bits, pos + ll[s] + xl, CodeBits(dl, d), Lsb(y, yl));
    SymbolReads(ll, 15, bits, pos, s);
    NumberReads(bits, pos + ll[s], x, xl);
    SymbolReads(dl, 15, bits, pos + ll[s] + xl, d);
    NumberReads(bits, pos + ll[s] + xl + dl[d], y, yl);
  }

  lemma TableSizes()
    ensures |LENGTH_EXTRA| == 29 == |LENGTH_BASE| && |DIST_EXTRA| == 30 == |DIST_BASE|
  {
  }

  lemma CodeLength(lens: seq<nat>, s: nat)
    requires s < |lens|
    ensures |CodeBits(lens, s)| == lens[s]
  {
  }

  lemma MatchParts(tab: Tab, item: Item)
    requires tab.Valid() && ItemOk(item) && item.Match?
    ensures |tab.lengthCode| == 256 && tab.lengthCode[item.len - 3] < 29 &&
      LSym(tab, item) == 257 + tab.lengthCode[item.len - 3]
    ensures LENGTH_BASE[tab.lengthCode[item.len - 3]] + LExtra(tab, item) == item.len
    ensures DIST_BASE[DSym(tab, item)] + DExtra(tab, item) == item.dist
  {
    hide Pow2;
    var c, d := tab.lengthCode[item.len - 3], DSym(tab, item);
    assert CT.LengthOk(item.len - 3, c, tab.baseLength[c]);
    assert CT.DistOk(item.dist - 1, d, tab.baseDist[d]);
  }

  lemma ItemReads(tab: Tab, ll: seq<nat>, dl: seq<nat>, item: Item, bits: seq<bool>, pos: nat)
    requires tab.Valid() && Decodable(ll, 15) && Decodable(dl, 15) && Codable(tab, ll, dl, item)
    requires At(bits, pos, ItemBits(tab, ll, dl, item))
    ensures ReadItem(ll, dl, bits, pos) == Some((item, pos + |ItemBits(tab, ll, dl, item)|))
  {
    hide Decodable, CodeBits, Lsb, At, Symbol, Number, Pow2, LENGTH_EXTRA, DIST_EXTRA, LENGTH_BASE, DIST_BASE,
      Tab.Valid, LExtra, DExtra, DSym, LSym;
    if item.Literal? {
      LiteralSymbol(tab, item);
      CodeLength(ll, item.b);
      SymbolReads(ll, 15, bits, pos, item.b);
    } else {
      TableSizes();
      MatchParts(tab, item);
      var c, d := tab.lengthCode[item.len - 3], DSym(tab, item);
      CodeLength(ll, 257 + c);
      CodeLength(dl, d);
      MatchReads(ll, dl, bits, pos, 257 + c, LExtra(tab, item), LENGTH_EXTRA[c], d, DExtra(tab, item), DIST_EXTRA[d]);
    }
  }

  lemma LiteralSymbol(tab: Tab, item: Item)
    requires tab.Valid() && item.Literal?
    ensures LSym(tab, item) == item.b
  {
  }

  lemma EndReads(ll: seq<nat>, dl: seq<nat>, bits: seq<bool>, pos: nat)
    requires Decodable(ll, 15) && |ll| > END_OF_BLOCK && ll[END_OF_BLOCK] > 0
    requires At(bits, pos, CodeBits(ll, END_OF_BLOCK))
    ensures ReadItem(ll, dl, bits, pos) == Some((EndOfBlock, pos + ll[END_OF_BLOCK]))
  {
    hide Decodable, CodeBits, At;
    SymbolReads(ll, 15, bits, pos, END_OF_BLOCK);
  }

  /** The data of a block decodes to the expansion of its items. */
  lemma {:induction false} DataReads(tab: Tab, ll: seq<nat>, dl: seq<nat>, items: seq<Item>, bits: seq<bool>, pos: nat,
                                     out: seq<byte>)
    requires tab.Valid() && Decodable(ll, 15) && Decodable(dl, 15) && AllCodable(tab, ll, dl, items)
    requires |ll| > END_OF_BLOCK && ll[END_OF_BLOCK] > 0 && Fits(items, out)
    requires At(bits, pos, DataBits(tab, ll, dl, items) + CodeBits(ll, END_OF_BLOCK))
    ensures Data(ll, dl, bits, pos, out)
            == Some((ExpandItems(items, out), pos + |DataBits(tab, ll, dl, items)| + ll[END_OF_BLOCK]))
    decreases |items|
  {
    hide Decodable, CodeBits, ItemBits, Codable, At, ReadItem, Tab.Valid, Apply, Applies;
    var end := CodeBits(ll, END_OF_BLOCK);
    if items == [] {
      assert [] + end == end;
      EndReads(ll, dl, bits, pos);
    } else {
      var h, rest := ItemBits(tab, ll, dl, items[0]), DataBits(tab, ll, dl, items[1..]);
      assert (h + rest) + end == h + (rest + end);
      AtSplit(bits, pos, h, rest + end);
      ItemReads(tab, ll, dl, items[0], bits, pos);
      DataReads(tab, ll, dl, items[1..], bits, pos + |h|, Apply(items[0], out));
      DataStep(ll, dl, bits, pos, out, items[0], pos + |h|);
    }
  }

  lemma DataStep(ll: seq<nat>, dl: seq<nat>, bits: seq<bool>, pos: nat, out: seq<byte>, item: Item, p: nat)
    requires ReadItem(ll, dl, bits, pos) == Some((item, p)) && Applies(item, out)
    ensures Data(ll, dl, bits, pos, out) == Data(ll, dl, bits, p, Apply(item, out))
  {
    hide ReadItem;
  }

  // ---- frequencies and cost ----

  /** How often each literal/length symbol is needed, the end of the block included. */
  ghost function LFreq(tab: Tab, items: seq<Item>): (f: seq<nat>)
    requires tab.Valid() && ItemsOk(items)
    ensures |f| == L_CODES
  {
    if items == [] then Repeat(0, L_CODES)[END_OF_BLOCK := 1]
    else
      var f, s := LFreq(tab, items[..|items| - 1]), LSym(tab, items[|items| - 1]);
      f[s := f[s] + 1]
  }

  /** How often each distance symbol is needed. */
  ghost function DFreq(tab: Tab, items: seq<Item>): (f: seq<nat>)
    requires tab.Valid() && ItemsOk(items)
    ensures |f| == D_CODES
  {
    if items == [] then Repeat(0, D_CODES)
    else
      var f, item := DFreq(tab, items[..|items| - 1]), items[|items| - 1];
      if item.Match? then var s := DSym(tab, item); f[s := f[s] + 1] else f
  }

  lemma FreqPush(tab: Tab, items: seq<Item>, item: Item)
    requires tab.Valid() && ItemsOk(items) && ItemOk(item)
    ensures ItemsOk(items + [item])
    ensures var f, s := LFreq(tab, items), LSym(tab, item); LFreq(tab, items + [item]) == f[s := f[s] + 1]
    ensures item.Match? ==>
      var f, s := DFreq(tab, items), DSym(tab, item); DFreq(tab, items + [item]) == f[s := f[s] + 1]
    ensures !item.Match? ==> DFreq(tab, items + [item]) == DFreq(tab, items)
  {
    hide Tab.Valid, LSym, DSym;
    assert (items + [item])[..|items|] == items;
  }

  /** Symbols of coded items have a non-zero frequency, and so has the end of the block. */
  lemma {:induction false} FreqPositive(tab: Tab, items: seq<Item>, i: nat)
    requires tab.Valid() && ItemsOk(items)
    ensures LFreq(tab, items)[END_OF_BLOCK] >= 1
    ensures i < |items| ==> LFreq(tab, items)[LSym(tab, items[i])] >= 1 &&
                            (items[i].Match? ==> DFreq(tab, items)[DSym(tab, items[i])] >= 1)
    decreases |items|
  {
    hide Tab.Valid, LSym, DSym;
    if items != [] { FreqPositive(tab, items[..|items| - 1], if i < |items| - 1 then i else 0); }
  }

  lemma {:induction false} SumUpdate(f: seq<int>, k: nat, v: int, n: nat)
    requires k < |f| && n <= |f|
    ensures SumTo(f[k := v], n) == SumTo(f, n) + if k < n then v - f[k] else 0
  {
    if n > 0 { SumUpdate(f, k, v, n - 1); }
  }

  lemma {:induction false} SumZeros(f: seq<int>, n: nat)
    requires n <= |f| && forall i :: 0 <= i < n ==> f[i] == 0
    ensures SumTo(f, n) == 0
  {
    if n > 0 { SumZeros(f, n - 1); }
  }

  /** The frequencies add up to the number of items. */
  lemma {:induction false} FreqSums(tab: Tab, items: seq<Item>)
    requires tab.Valid() && ItemsOk(items)
    ensures SumTo(LFreq(tab, items), L_CODES) == |items| + 1
    ensures SumTo(DFreq(tab, items), D_CODES) <= |items|
    decreases |items|
  {
    hide Tab.Valid, LSym, DSym, SumTo;
    if items == [] {
      SumZeros(Repeat(0, L_CODES), L_CODES);
      SumUpdate(Repeat(0, L_CODES), END_OF_BLOCK, 1, L_CODES);
      SumZeros(Repeat(0, D_CODES), D_CODES);
    } else {
      var rest, item := items[..|items| - 1], items[|items| - 1];
      FreqSums(tab, rest);
      var s := LSym(tab, item);
      SumUpdate(LFreq(tab, rest), s, LFreq(tab, rest)[s] + 1, L_CODES);
      if item.Match? {
        var t := DSym(tab, item);
        SumUpdate(DFreq(tab, rest), t, DFreq(tab, rest)[t] + 1, D_CODES);
      }
    }
  }

  ghost predicate LExtras(x: seq<nat>)
  {
    |x| == L_CODES && forall n :: 0 <= n < L_CODES ==> x[n] == if n >= 257 then LENGTH_EXTRA[n - 257] else 0
  }

  /** Every symbol the items need is in use. */
  ghost predicate Covers(tab: Tab, items: seq<Item>, usedL: seq<nat>, usedD: seq<nat>)
    requires tab.Valid()
  {
    |usedL| == L_CODES && |usedD| == D_CODES && usedL[END_OF_BLOCK] != 0 && ItemsOk(items) &&
    forall i :: 0 <= i < |items| ==>
      usedL[LSym(tab, items[i])] != 0 && (items[i].Match? ==> usedD[DSym(tab, items[i])] != 0)
  }

  lemma {:induction false} ZeroFreqCost(f: seq<nat>, used: seq<nat>, lens: seq<nat>, x: seq<nat>, n: nat)
    requires n <= |f| && n <= |used| && n <= |lens| && n <= |x| && forall i :: 0 <= i < n ==> f[i] == 0
    ensures BitCost(f, used, lens, x, n) == 0
  {
    if n > 0 { ZeroFreqCost(f, used, lens, x, n - 1); }
  }

  lemma ItemCost(tab: Tab, ll: seq<nat>, dl: seq<nat>, item: Item, lx: seq<nat>)
    requires tab.Valid() && Codable(tab, ll, dl, item) && LExtras(lx)
    ensures |ItemBits(tab, ll, dl, item)| == ll[LSym(tab, item)] + lx[LSym(tab, item)] +
              if item.Match? then dl[DSym(tab, item)] + DIST_EXTRA[DSym(tab, item)] else 0
  {
    hide CodeBits, Lsb;
    if item.Match? { assert LSym(tab, item) == 257 + tab.lengthCode[item.len - 3]; }
  }

  /** The predicted cost of a block is the number of bits its data takes. */
  lemma {:induction false} DataCost(tab: Tab, ll: seq<nat>, dl: seq<nat>, items: seq<Item>, usedL: seq<nat>,
                                    lensL: seq<nat>,
                                    usedD: seq<nat>, lensD: seq<nat>, lx: seq<nat>)
    requires tab.Valid() && AllCodable(tab, ll, dl, items) && Covers(tab, items, usedL, usedD) && LExtras(lx)
    requires |lensL| >= L_CODES && |lensD| >= D_CODES && |ll| > END_OF_BLOCK
    requires forall s :: 0 <= s < |ll| && s < L_CODES ==> lensL[s] == ll[s]
    requires forall s :: 0 <= s < |dl| && s < D_CODES ==> lensD[s] == dl[s]
    ensures |DataBits(tab, ll, dl, items)| + ll[END_OF_BLOCK]
            == BitCost(LFreq(tab, items), usedL, lensL, lx, L_CODES) +
              BitCost(DFreq(tab, items), usedD, lensD, DIST_EXTRA, D_CODES)
    decreases |items|
  {
    hide Tab.Valid, LSym, DSym, BitCost, ItemBits, LFreq, DFreq;
    if items == [] {
      NoItems(tab, usedL, lensL, usedD, lensD, lx);
    } else {
      var rest, item := items[..|items| - 1], items[|items| - 1];
      assert items == rest + [item] && Codable(tab, ll, dl, item);
      DataCost(tab, ll, dl, rest, usedL, lensL, usedD, lensD, lx);
      DataBitsPush(tab, ll, dl, rest, item);
      FreqPush(tab, rest, item);
      ItemCost(tab, ll, dl, item, lx);
      CostMore(LFreq(tab, rest), usedL, lensL, lx, L_CODES, LSym(tab, item));
      if item.Match? { CostMore(DFreq(tab, rest), usedD, lensD, DIST_EXTRA, D_CODES, DSym(tab, item)); }
    }
  }

  lemma NoItems(tab: Tab, usedL: seq<nat>, lensL: seq<nat>, usedD: seq<nat>, lensD: seq<nat>, lx: seq<nat>)
    requires tab.Valid() && LExtras(lx) && |usedL| == L_CODES <= |lensL| && |usedD| == D_CODES <= |lensD| &&
      usedL[END_OF_BLOCK] != 0
    ensures BitCost(LFreq(tab, []), usedL, lensL, lx, L_CODES) == lensL[END_OF_BLOCK]
    ensures BitCost(DFreq(tab, []), usedD, lensD, DIST_EXTRA, D_CODES) == 0
  {
    hide BitCost, Tab.Valid, Repeat, LFreq, DFreq;
    NoLengths(tab, usedL, lensL, lx);
    NoDistances(tab, usedD, lensD);
  }

  lemma NoLengths(tab: Tab, usedL: seq<nat>, lensL: seq<nat>, lx: seq<nat>)
    requires tab.Valid() && |lx| == L_CODES && lx[END_OF_BLOCK] == 0
    requires |usedL| == L_CODES <= |lensL| && usedL[END_OF_BLOCK] != 0
    ensures BitCost(LFreq(tab, []), usedL, lensL, lx, L_CODES) == lensL[END_OF_BLOCK]
  {
    hide BitCost, Tab.Valid, Repeat;
    var z: seq<nat> := Repeat(0, L_CODES);
    ZeroFreqCost(z, usedL, lensL, lx, L_CODES);
    CostMore(z, usedL, lensL, lx, L_CODES, END_OF_BLOCK);
    assert LFreq(tab, []) == z[END_OF_BLOCK := z[END_OF_BLOCK] + 1];
  }

  lemma NoDistances(tab: Tab, usedD: seq<nat>, lensD: seq<nat>)
    requires tab.Valid() && |usedD| == D_CODES <= |lensD|
    ensures BitCost(DFreq(tab, []), usedD, lensD, DIST_EXTRA, D_CODES) == 0
  {
    hide BitCost, Tab.Valid, Repeat;
    ZeroFreqCost(Repeat(0, D_CODES), usedD, lensD, DIST_EXTRA, D_CODES);
  }
}
