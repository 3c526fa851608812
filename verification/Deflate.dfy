/** deflate of gzip.c: lazy matching over the sliding window. Inflating what it sends
    gives back what it read. */
module Deflate {
  import opened Bits
  import opened Limits
  import opened Inflate
  import opened Tokens
  import opened LM = LongestMatch
  import opened Dictionary
  import opened BlockReads
  import FlushBlock
  import W = Window
  import C = Coder
  import BitSink
  import Crc

  // ---- decoding block after block ----

  /** A decoder that starts at start has read s and produced out; what follows s is still to come. */
  ghost predicate Resumes(s: seq<bool>, start: nat, out: seq<byte>)
  {
    forall bits :: s <= bits ==> Stream(bits, start, []) == Stream(bits, |s|, out)
  }

  /** ... and it is done: the rest is ignored. */
  ghost predicate Finished(s: seq<bool>, start: nat, out: seq<byte>)
  {
    forall bits :: s <= bits ==> Stream(bits, start, []) == Some((out, |s|))
  }

  lemma NextBlock(s: seq<bool>, start: nat, out: seq<byte>, s1: seq<bool>, out': seq<byte>)
    requires Resumes(s, start, out) && s <= s1 && ReadsBlock(s1, |s|, false, out, out')
    ensures Resumes(s1, start, out')
  {
    hide Block, Number;
    forall bits | s1 <= bits ensures Stream(bits, start, []) == Stream(bits, |s1|, out') {
      assert BlockIs(bits, |s|, |s1|, false, out, out');
    }
  }

  lemma LastBlock(s: seq<bool>, start: nat, out: seq<byte>, s1: seq<bool>, out': seq<byte>)
    requires Resumes(s, start, out) && s <= s1 && ReadsBlock(s1, |s|, true, out, out')
    ensures Finished(s1, start, out')
  {
    hide Block, Number;
    forall bits | s1 <= bits ensures Stream(bits, start, []) == Some((out', |s1|)) {
      assert BlockIs(bits, |s|, |s1|, true, out, out');
    }
  }

  // ---- tokens and the input they stand for ----

  /** At position p the data repeats, for len bytes, what it had d bytes before. */
  ghost predicate Repeats(data: seq<byte>, p: nat, d: int, len: nat)
  {
    1 <= d <= p && d <= MAX_DIST && p + len <= |data| && data[p..p + len] == data[p - d..p - d + len]
  }

  lemma RepeatsFacts(data: seq<byte>, p: nat, d: int, len: nat)
    requires Repeats(data, p, d, len)
    ensures 1 <= d <= p && d <= MAX_DIST && p + len <= |data|
  {
  }

  lemma DictParts(w: seq<byte>, prev: seq<ush>, insH: nat, ins: nat)
    requires Dict(w, prev, insH, ins)
    ensures Linked(w, prev, ins) && Ready(w, insH, ins)
  {
  }

  lemma {:induction false} CopyRepeats(data: seq<byte>, p: nat, d: nat, len: nat)
    requires Repeats(data, p, d, len)
    ensures Copy(data[..p], d, len) == data[..p + len]
    decreases len
  {
    if len > 0 {
      assert data[p] == data[p..p + len][0] == data[p - d];
      assert data[..p] + [data[p]] == data[..p + 1];
      assert data[p + 1..p + len] == data[p..p + len][1..] == data[p - d..p - d + len][1..] ==
        data[p + 1 - d..p - d + len];
      CopyRepeats(data, p + 1, d, len - 1);
    }
  }

  /** The tokens turn the first bs bytes of data into the first end bytes. */
  ghost predicate StandFor(items: seq<Item>, data: seq<byte>, bs: int, end: int)
  {
    0 <= bs <= end <= |data| && Fits(items, data[..bs]) && ExpandItems(items, data[..bs]) == data[..end]
  }

  lemma NoTokens(data: seq<byte>, bs: nat)
    requires bs <= |data|
    ensures StandFor([], data, bs, bs)
  {
  }

  lemma LiteralStands(items: seq<Item>, data: seq<byte>, bs: int, end: int)
    requires StandFor(items, data, bs, end) && end < |data|
    ensures StandFor(items + [Literal(data[end])], data, bs, end + 1)
  {
    ExpandPush(items, Literal(data[end]), data[..bs]);
    assert data[..end] + [data[end]] == data[..end + 1];
  }

  lemma MatchStands(items: seq<Item>, data: seq<byte>, bs: int, end: int, d: nat, len: nat)
    requires StandFor(items, data, bs, end) && Repeats(data, end, d, len)
    ensures StandFor(items + [Match(len, d)], data, bs, end + len)
  {
    ExpandPush(items, Match(len, d), data[..bs]);
    CopyRepeats(data, end, d, len);
  }

  class Deflater {
    const win: W.Window
    const coder: C.Coder
    const sink: BitSink.Sink
    ghost const head: seq<bool>   // the output before the compressed data

    constructor (win: W.Window, coder: C.Coder, sink: BitSink.Sink, ghost head: seq<bool>)
      ensures this.win == win && this.coder == coder && this.sink == sink && this.head == head
    {
      this.win, this.coder, this.sink, this.head := win, coder, sink, head;
    }

    ghost function CoderFrame(): (s: set<object>)
    {
      {coder, coder.work, coder.work.heap, coder.work.depth, coder.work.blCount,
       coder.buf, coder.buf.lBuf, coder.buf.dBuf, coder.buf.flagBuf,
       coder.lDesc, coder.lDesc.fc, coder.lDesc.dl, coder.dDesc, coder.dDesc.fc, coder.dDesc.dl,
       coder.blDesc, coder.blDesc.fc, coder.blDesc.dl}
    }

    /** The window, the coder and the output share no memory. */
    ghost predicate Separate()
    {
      win !in CoderFrame() && win.file !in CoderFrame() && sink !in CoderFrame() &&
      sink.outbuf !in CoderFrame() && win.window !in CoderFrame() && win.prev !in CoderFrame() &&
        win.file.table !in CoderFrame() &&
      win.window != sink.outbuf
    }

    /** The tokens in the buffer stand for the input from bs to end. */
    ghost predicate Tallied(bs: int, end: int)
      reads CoderFrame()
    {
      coder.Valid() && StandFor(coder.buf.items, win.file.data, bs, end)
    }

    ghost predicate Room()
      reads coder.buf
    {
      |coder.buf.items| + 1 < LIT_BUFSIZE
    }

    /** The output so far decodes to the first bs bytes of the input. */
    ghost predicate Sent(bs: int)
      reads sink, sink.outbuf, coder
    {
      sink.Valid() && |head| % 8 == 0 && |sink.Stream()| == |head| + coder.compressedLen && head <= sink.Stream() &&
      0 <= bs <= |win.file.data| && Resumes(sink.Stream(), |head|, win.file.data[..bs])
    }

    /** A literal at end. */
    method TallyLiteral(ghost bs: int, ghost end: int, c: byte, inLength: int) returns (flush: bool)
      requires Separate() && Tallied(bs, end) && Room() && end < |win.file.data| && win.file.data[end] == c
      modifies CoderFrame()
      ensures Tallied(bs, end + 1) && (!flush ==> Room())
      ensures old(Sent(bs)) ==> Sent(bs)
    {
      hide C.Coder.Valid, StandFor;
      LiteralStands(coder.buf.items, win.file.data, bs, end);
      flush := C.CtTally(coder, 0, c, inLength);
    }

    /** A match at end. */
    method TallyMatch(ghost bs: int, ghost end: int, dist: nat, len: nat, inLength: int) returns (flush: bool)
      requires Separate() && Tallied(bs, end) && Room() && end >= 0 && Repeats(win.file.data, end, dist, len) &&
        MIN_MATCH <= len <= MAX_MATCH
      modifies CoderFrame()
      ensures Tallied(bs, end + len) && (!flush ==> Room())
      ensures old(Sent(bs)) ==> Sent(bs)
    {
      hide C.Coder.Valid, StandFor;
      MatchStands(coder.buf.items, win.file.data, bs, end, dist, len);
      flush := C.CtTally(coder, dist, len - MIN_MATCH, inLength);
    }

    /** FLUSH_BLOCK: the window still holds the block unless its start has slid out. */
    method Flush(eof: bool, ghost bs: int, ghost end: int) returns (total: nat, ghost s1: seq<bool>)
      requires Separate() && win.Holds() && Tallied(bs, end) && Sent(bs)
      requires bs == win.off + win.blockStart && end == win.off + win.strstart
      modifies CoderFrame(), sink, sink.outbuf
      ensures !eof ==> Tallied(end, end) && Room() && Sent(end)
      ensures eof ==> sink.Valid() && head <= s1 && Finished(s1, |head|, win.file.data[..end])
      ensures eof ==> sink.Stream() == BitSink.Padded(s1)
      ensures eof ==> |sink.Stream()| == |head| + 8 * total && sink.biValid == 0
    {
      hide C.Coder.Valid, Resumes, Finished, ReadsBlock, BitSink.Padded, BitSink.Sink.Stream, Fits, ExpandItems,
        Crc.Feed, Crc.BitSteps;
      ghost var data := win.file.data;
      ghost var st := sink.Stream();
      var stored, storedLen := None, win.strstart - win.blockStart;
      if win.blockStart >= 0 {
        stored := Some(win.window[win.blockStart..win.strstart]);
        StoredBytes(win.window[..], data, win.off, win.blockStart, win.strstart, win.strstart + win.lookahead);
      }
      total, s1 := FlushBlock.FlushBlock(coder, sink, stored, storedLen, eof, data[..bs], |head|);
      NoTokens(data, end);
      if eof {
        LastBlock(st, |head|, data[..bs], s1, data[..end]);
      } else {
        NextBlock(st, |head|, data[..bs], s1, data[..end]);
      }
    }

    /** The search for a match at strstart, where prevLength is the length of the match one byte earlier. */
    method FindMatch(hashHead: nat, prevLength: nat) returns (len: nat)
      requires win.Holds() && 1 <= win.lookahead && Linked(win.window[..], win.prev[..], win.strstart + 1)
      requires HeadOk(win.window[..], hashHead, HashAt(win.window[..], win.strstart), win.strstart)
      requires 2 <= prevLength <= MAX_MATCH
      modifies win`matchStart
      ensures len <= MAX_MATCH && (len >= 2 || win.lookahead == 1)
      ensures len > prevLength ==>
        len <= win.lookahead && Repeats(win.file.data, win.off + win.strstart, win.strstart - win.matchStart, len)
      ensures hashHead != 0 && prevLength < MAX_LAZY_MATCH && win.strstart - hashHead <= MAX_DIST ==>
        BestOf(win.window[..], win.prev[..], win.strstart, hashHead, prevLength, win.lookahead, len)
      ensures prevLength < MAX_LAZY_MATCH ==>
        BestInWindow(win.window[..], win.strstart, ChainLength(prevLength), win.lookahead, len)
    {
      hide Linked, HashAt, HeadOk, W.Input.Valid, Longest, Visited, InWindow, MatchLen, Repeats, BestInWindow;
      len := MIN_MATCH - 1;
      win.HoldsFacts();
      HeadIs(win.window[..], hashHead, win.strstart);
      NothingBetter(win.window[..], win.strstart, hashHead, ChainLength(prevLength), win.lookahead);
      if hashHead != 0 && prevLength < MAX_LAZY_MATCH && win.strstart - hashHead <= MAX_DIST {
        ghost var w, c := win.window[..],
          Visited(win.window[..], win.prev[..], win.strstart, hashHead, ChainLength(prevLength));
        ghost var start := win.matchStart;
        len, win.matchStart :=
          LM.LongestMatch(win.window, win.prev, win.strstart, prevLength, win.matchStart, hashHead);
        FoundRepeats(w, win.file.data, win.off, win.strstart, win.lookahead, c, prevLength, start, len, win.matchStart);
        NoneLonger(w, win.strstart, c, prevLength, start, len);
        NoneBetter(w, win.prev[..], win.strstart, hashHead, prevLength, start, win.lookahead);
        if len > win.lookahead { len := win.lookahead; }
        if len == MIN_MATCH && win.strstart - win.matchStart > TOO_FAR { len := len - 1; }
      }
    }

    ghost predicate WindowOk(matchAvailable: bool)
      reads win, win.window, win.prev, win.file, win.file.table
    {
      win.Valid() && (win.eofile || win.lookahead >= 2) && (win.lookahead > 0 ==> win.HashReady()) &&
        win.off + win.blockStart >= 0 && (matchAvailable ==> win.strstart >= 1)
    }

    /** The match that waits to be compared with one starting a byte later. */
    ghost predicate Pending(matchAvailable: bool, matchLength: nat)
      reads win
    {
      matchLength <= MAX_MATCH && (matchLength >= 2 || win.lookahead == 0) &&
      (matchLength >= MIN_MATCH ==>
        (matchAvailable && matchLength <= win.lookahead + 1 && win.strstart >= 1 &&
         Repeats(win.file.data, win.off + win.strstart - 1, win.strstart - 1 - win.matchStart, matchLength)))
    }

    /** What holds whenever deflate looks at the next byte. */
    ghost predicate Inv(matchAvailable: bool, matchLength: nat)
      reads win, win.window, win.prev, win.file, win.file.table, CoderFrame(), sink, sink.outbuf
    {
      Separate() && WindowOk(matchAvailable) && Pending(matchAvailable, matchLength) && Room() &&
      Tallied(win.off + win.blockStart, win.off + win.strstart - (if matchAvailable then 1 else 0)) &&
      Sent(win.off + win.blockStart)
    }

    /** Flush the block if it is full and start the next one at strstart. */
    method FlushIf(flush: bool)
      requires Separate() && win.Holds() && (flush || Room()) && win.off + win.blockStart >= 0
      requires Tallied(win.off + win.blockStart, win.off + win.strstart) && Sent(win.off + win.blockStart)
      modifies CoderFrame(), sink, sink.outbuf, win`blockStart
      ensures Tallied(win.off + win.blockStart, win.off + win.strstart) && Sent(win.off + win.blockStart) && Room()
      ensures win.off + win.blockStart >= 0
    {
      hide W.Window.Holds, Tallied, Sent;
      if flush {
        ghost var s1;
        var total;
        total, s1 := Flush(false, win.off + win.blockStart, win.off + win.strstart);
        win.blockStart := win.strstart;
      }
    }

    /** Insert n strings from s on; the tokens and the output are not affected. */
    method InsertRange(s: nat, n: nat, ghost bs: int, ghost end: int)
      requires Separate() && Dict(win.window[..], win.prev[..], win.insH, s) && win.window.Length == WINDOW_MEM &&
        s + n <= 2 * WSIZE
      requires Tallied(bs, end) && Sent(bs)
      modifies win`insH, win.prev
      ensures Dict(win.window[..], win.prev[..], win.insH, s + n)
      ensures Tallied(bs, end) && Sent(bs)
    {
      hide Dict, C.Coder.Valid, Resumes, StandFor, BitSink.Sink.Stream, BitSink.Sink.Valid;
      win.insH := InsertStrings(win.window, win.prev, win.insH, s, n);
    }

    /** In the middle of a step: the string at strstart has been inserted. */
    ghost predicate Inserted()
      reads win, win.window, win.prev, win.file, win.file.table, coder, coder.buf, sink, sink.outbuf
    {
      Separate() && win.Holds() && Dict(win.window[..], win.prev[..], win.insH, win.strstart + 1) &&
      1 <= win.lookahead && (win.eofile || win.lookahead >= MIN_LOOKAHEAD) && win.off + win.blockStart >= 0 &&
      Room() && Sent(win.off + win.blockStart)
    }

    /** len is the length of the match found at strstart, if it is worth waiting for. */
    ghost predicate Found(len: nat)
      reads win
    {
      len <= MAX_MATCH && (len >= 2 || win.lookahead == 1) &&
      (len >= MIN_MATCH ==>
        (len <= win.lookahead && Repeats(win.file.data, win.off + win.strstart, win.strstart - win.matchStart, len)))
    }

    /** Adopt the match of the previous step. */
    method EmitMatch(prevLength: nat, prevMatch: int)
      requires Inserted() && win.strstart >= 1 && Tallied(win.off + win.blockStart, win.off + win.strstart - 1)
      requires MIN_MATCH <= prevLength <= MAX_MATCH && prevLength <= win.lookahead + 1
      requires Repeats(win.file.data, win.off + win.strstart - 1, win.strstart - 1 - prevMatch, prevLength)
      modifies win, win.prev, CoderFrame(), sink, sink.outbuf
      ensures Inv(false, MIN_MATCH - 1) && win.off == old(win.off) && win.lookahead < old(win.lookahead) &&
        win.eofile == old(win.eofile)
    {
      hide W.Input.Valid, Dict, Tallied, Sent, Repeats, Linked, Ready, CoderFrame;
      RepeatsFacts(win.file.data, win.off + win.strstart - 1, win.strstart - 1 - prevMatch, prevLength);
      var flush := TallyMatch(win.off + win.blockStart, win.off + win.strstart - 1, win.strstart - 1 - prevMatch,
        prevLength,
                              win.strstart - win.blockStart);
      win.lookahead := win.lookahead - (prevLength - 1);
      InsertRange(win.strstart + 1, prevLength - 2, win.off + win.blockStart, win.off + win.strstart - 1 + prevLength);
      win.strstart := win.strstart + (prevLength - 2) + 1;
      DictParts(win.window[..], win.prev[..], win.insH, win.strstart);
      FlushIf(flush);
    }

    /** Give up the previous match, or there was none: a literal for the byte before strstart. */
    method EmitLiteral(len: nat)
      requires Inserted() && win.strstart >= 1 && Tallied(win.off + win.blockStart, win.off + win.strstart - 1) &&
        Found(len)
      modifies win, CoderFrame(), sink, sink.outbuf
      ensures Inv(true, len) && win.off == old(win.off) && win.lookahead < old(win.lookahead) &&
        win.eofile == old(win.eofile)
    {
      hide W.Input.Valid, Dict, Tallied, Sent, Repeats, Linked, Ready, CoderFrame;
      win.HoldsFacts();
      ByteBefore(win.window[..], win.file.data, win.off, win.strstart, win.strstart + win.lookahead);
      var flush := TallyLiteral(win.off + win.blockStart, win.off + win.strstart - 1, win.window[win.strstart - 1],
                                win.strstart - win.blockStart);
      FlushIf(flush);
      DictParts(win.window[..], win.prev[..], win.insH, win.strstart + 1);
      win.strstart, win.lookahead := win.strstart + 1, win.lookahead - 1;
    }

    /** Nothing is pending yet: the byte becomes pending itself. */
    method Wait(len: nat)
      requires Inserted() && Tallied(win.off + win.blockStart, win.off + win.strstart) && Found(len)
      modifies win
      ensures Inv(true, len) && win.off == old(win.off) && win.lookahead < old(win.lookahead) &&
        win.eofile == old(win.eofile)
    {
      hide W.Input.Valid, Dict, Tallied, Sent, Repeats, Linked, Ready, CoderFrame;
      win.HoldsFacts();
      DictParts(win.window[..], win.prev[..], win.insH, win.strstart + 1);
      win.strstart, win.lookahead := win.strstart + 1, win.lookahead - 1;
    }

    /** Insert the string at strstart and look for a match. */
    method Probe(prevLength: nat, ghost bs: int, ghost end: int) returns (len: nat)
      requires Separate() && win.Valid() && win.HashReady() && win.lookahead >= 1 &&
        (win.eofile || win.lookahead >= MIN_LOOKAHEAD)
      requires win.off + win.blockStart == bs >= 0 && Tallied(bs, end) && Room() && Sent(bs) &&
        2 <= prevLength <= MAX_MATCH
      modifies win`insH, win`matchStart, win.prev
      ensures Inserted() && Tallied(bs, end) && len <= MAX_MATCH && (len > prevLength || prevLength == 2 ==> Found(len))
    {
      hide W.Input.Valid, Linked, Ready, C.Coder.Valid, Resumes, StandFor, BitSink.Sink.Stream, BitSink.Sink.Valid,
        HashAt, Repeats;
      var head;
      win.insH, head := InsertString(win.window, win.prev, win.insH, win.strstart);
      len := FindMatch(head, prevLength);
    }

    method Step(matchAvailable: bool, matchLength: nat) returns (available: bool, length: nat)
      requires Inv(matchAvailable, matchLength) && win.lookahead >= 1 && (win.eofile || win.lookahead >= MIN_LOOKAHEAD)
      modifies win, win.prev, CoderFrame(), sink, sink.outbuf
      ensures Inv(available, length) && win.off == old(win.off) && win.lookahead < old(win.lookahead) &&
        win.eofile == old(win.eofile)
    {
      hide W.Window.Holds, Linked, Ready, Tallied, Sent, Repeats, CoderFrame, Separate, Inserted, W.Window.HashReady;
      var prevLength, prevMatch := matchLength, win.matchStart;
      var len := Probe(prevLength, win.off + win.blockStart,
        win.off + win.strstart - (if matchAvailable then 1 else 0));
      if prevLength >= MIN_MATCH && len <= prevLength {
        EmitMatch(prevLength, prevMatch);
        return false, MIN_MATCH - 1;
      } else if matchAvailable {
        EmitLiteral(len);
      } else {
        Wait(len);
      }
      return true, len;
    }

    /** Read ahead; nothing else changes. */
    method ReadAhead(matchAvailable: bool, matchLength: nat)
      requires Inv(matchAvailable, matchLength)
      modifies win, win.window, win.prev, win.file`pos, win.file`failed, win.file`crc, win.file`isize
      ensures Inv(matchAvailable, matchLength) && (win.eofile || win.lookahead >= MIN_LOOKAHEAD)
      ensures |win.file.data| - win.off - win.strstart == old(|win.file.data| - win.off - win.strstart)
    {
      hide W.Input.Valid, Linked, Ready, C.Coder.Valid, Resumes, StandFor, BitSink.Sink.Stream, BitSink.Sink.Valid,
        Repeats;
      win.FillUp();
    }

    /** Compress the input: a decoder that starts where the compressed data start gives back all that was read. */
    method Deflate() returns (total: nat, ghost s1: seq<bool>)
      requires Separate() && win.Valid() && win.off == win.strstart == win.blockStart == 0
      requires (win.eofile || win.lookahead >= MIN_LOOKAHEAD) && (win.lookahead > 0 ==> win.HashReady())
      requires coder.Valid() && coder.buf.items == [] && coder.compressedLen == 0
      requires sink.Valid() && sink.Stream() == head && |head| % 8 == 0
      modifies win, win.window, win.prev, win.file`pos, win.file`failed, win.file`crc, win.file`isize, CoderFrame(),
        sink, sink.outbuf
      ensures sink.Valid() && head <= s1 && sink.Stream() == BitSink.Padded(s1) &&
        |sink.Stream()| == |head| + 8 * total && sink.biValid == 0
      ensures win.file.Valid() && Finished(s1, |head|, win.file.data[..win.file.pos])
      ensures win.file.pos == |win.file.data| || win.file.failed
    {
      hide W.Window.Valid, Tallied, Sent, Inv, Finished, BitSink.Padded, BitSink.Sink.Valid, BitSink.Sink.Stream,
        CoderFrame;
      Start();
      var matchAvailable, matchLength: nat := false, MIN_MATCH - 1;
      while win.lookahead != 0
        invariant Inv(matchAvailable, matchLength) && (win.eofile || win.lookahead >= MIN_LOOKAHEAD)
        decreases |win.file.data| - win.off - win.strstart
      {
        Left(matchAvailable, matchLength);
        matchAvailable, matchLength := Step(matchAvailable, matchLength);
        Left(matchAvailable, matchLength);
        ReadAhead(matchAvailable, matchLength);
      }
      total, s1 := Finish(matchAvailable, matchLength);
    }

    lemma Start()
      requires Separate() && win.Valid() && win.off == win.strstart == win.blockStart == 0
      requires (win.eofile || win.lookahead >= MIN_LOOKAHEAD) && (win.lookahead > 0 ==> win.HashReady())
      requires coder.Valid() && coder.buf.items == [] && coder.compressedLen == 0
      requires sink.Valid() && sink.Stream() == head && |head| % 8 == 0
      ensures Inv(false, MIN_MATCH - 1)
    {
      hide C.Coder.Valid, CoderFrame, Linked, Ready;
      NoTokens(win.file.data, 0);
    }

    /** What is left of the input. */
    lemma Left(matchAvailable: bool, matchLength: nat)
      requires Inv(matchAvailable, matchLength)
      ensures win.file.pos == win.off + win.strstart + win.lookahead <= |win.file.data|
    {
      hide C.Coder.Valid, CoderFrame, Linked, Ready;
    }

    /** The last literal and the last block. */
    method Finish(matchAvailable: bool, ghost matchLength: nat) returns (total: nat, ghost s1: seq<bool>)
      requires Inv(matchAvailable, matchLength) && win.lookahead == 0 && win.eofile
      modifies CoderFrame(), sink, sink.outbuf
      ensures sink.Valid() && head <= s1 && sink.Stream() == BitSink.Padded(s1) &&
        |sink.Stream()| == |head| + 8 * total && sink.biValid == 0
      ensures win.file.Valid() && Finished(s1, |head|, win.file.data[..win.file.pos])
      ensures win.file.pos == |win.file.data| || win.file.failed
    {
      hide W.Input.Valid, Tallied, Sent, Linked, Ready, CoderFrame, Finished, BitSink.Padded, BitSink.Sink.Stream,
        Repeats;
      win.HoldsFacts();
      if matchAvailable {
        ByteBefore(win.window[..], win.file.data, win.off, win.strstart, win.strstart + win.lookahead);
        var flush := TallyLiteral(win.off + win.blockStart, win.off + win.strstart - 1, win.window[win.strstart - 1],
                                  win.strstart - win.blockStart);
      }
      total, s1 := Flush(true, win.off + win.blockStart, win.off + win.strstart);
    }
  }

  lemma ByteBefore(w: seq<byte>, data: seq<byte>, off: nat, s: nat, n: nat)
    requires 1 <= s <= n <= |w| && off + n <= |data| && w[..n] == data[off..off + n]
    ensures w[s - 1] == data[off + s - 1]
  {
    assert w[..n][s - 1] == data[off..off + n][s - 1];
  }

  /** No string that the search visits matches for more than len bytes of the lookahead; a match of three bytes may
      have been dropped because it is too far away. */
  ghost predicate BestOf(w: seq<byte>, prev: seq<ush>, s: nat, head: nat, prevLength: nat, lookahead: nat, len: nat)
    requires Linked(w, prev, s + 1) && Candidate(w, s, head)
  {
    var c := Visited(w, prev, s, head, ChainLength(prevLength));
    forall i :: 0 <= i < |c| ==> Within(w, s, c[i], lookahead, len)
  }

  ghost predicate Within(w: seq<byte>, s: nat, cur: nat, lookahead: nat, len: nat)
  {
    cur <= s && s + MAX_MATCH <= |w| &&
    var n := if MatchLen(w, cur, s) > lookahead then lookahead else MatchLen(w, cur, s);
    n <= len || (n == MIN_MATCH && len == MIN_MATCH - 1)
  }

  /** No string in the window matches for more than len bytes of the lookahead, except strings that are older than n
      others with their hash. */
  ghost predicate BestInWindow(w: seq<byte>, s: nat, n: nat, lookahead: nat, len: nat)
  {
    s + MAX_MATCH < |w| && forall p: nat :: Limit(s) < p < s ==> Within(w, s, p, lookahead, len) || Older(w, s, p, n)
  }

  ghost predicate Older(w: seq<byte>, s: nat, p: nat, n: nat)
    requires p < s && s + MAX_MATCH < |w|
  {
    Alike(w, s, p, s - 1) >= n
  }

  lemma HeadIs(w: seq<byte>, head: nat, s: nat)
    requires s + 2 < |w| && HeadOk(w, head, HashAt(w, s), s)
    ensures head == 0 || (head < s && HashAt(w, head) == HashAt(w, s))
  {
  }

  /** What the search finds, cut to the lookahead and dropped when it is short and far away. */
  lemma NoneBetter(w: seq<byte>, prev: seq<ush>, s: nat, head: nat, prevLength: nat, start: int, lookahead: nat)
    requires Linked(w, prev, s + 1) && Candidate(w, s, head) && HeadOk(w, head, HashAt(w, s), s) && prevLength >= 2
    requires InWindow(w, s, Visited(w, prev, s, head, ChainLength(prevLength)))
    ensures
      var len := Longest(w, s, Visited(w, prev, s, head, ChainLength(prevLength)), prevLength, start).0;
      var cut := if len > lookahead then lookahead else len;
      BestInWindow(w, s, ChainLength(prevLength), lookahead, cut) &&
      (cut == MIN_MATCH ==> BestInWindow(w, s, ChainLength(prevLength), lookahead, cut - 1))
  {
    hide Linked, HashAt, HeadOk, Longest, Visited, MatchLen, Alike;
    var len := Longest(w, s, Visited(w, prev, s, head, ChainLength(prevLength)), prevLength, start).0;
    forall p: nat | Limit(s) < p < s ensures MatchLen(w, p, s) <= len || Older(w, s, p, ChainLength(prevLength)) {
      LM.SearchIsComplete(w, prev, s, head, ChainLength(prevLength), prevLength, start, p);
    }
  }

  lemma NothingBetter(w: seq<byte>, s: nat, head: nat, n: nat, lookahead: nat)
    requires s + MAX_MATCH < |w| && HeadOk(w, head, HashAt(w, s), s)
    ensures head == 0 || s - head > MAX_DIST ==> BestInWindow(w, s, n, lookahead, MIN_MATCH - 1)
  {
    hide HashAt, HeadOk, MatchLen;
    if head == 0 || s - head > MAX_DIST {
      var len: nat := MIN_MATCH - 1;
      forall p: nat | Limit(s) < p < s ensures Within(w, s, p, lookahead, len) {
        LM.NothingInReach(w, s, head, p);
      }
    }
  }

  lemma NoneLonger(w: seq<byte>, s: nat, c: seq<nat>, best: nat, start: int, len: nat)
    requires InWindow(w, s, c) && len == Longest(w, s, c, best, start).0
    ensures forall i :: 0 <= i < |c| ==> c[i] < s && s + MAX_MATCH < |w| && MatchLen(w, c[i], s) <= len
  {
    hide Longest, MatchLen;
    LongestIsMaximal(w, s, c, best, start);
  }

  /** A result of the search above prevLength, cut off at the lookahead, repeats earlier input. */
  lemma FoundRepeats(w: seq<byte>, data: seq<byte>, off: nat, s: nat, lookahead: nat, c: seq<nat>, best: nat,
                     start: int, len: nat, ms: int)
    requires InWindow(w, s, c) && (forall i :: 0 <= i < |c| ==> Candidate(w, s, c[i])) &&
      (len, ms) == Longest(w, s, c, best, start)
    requires s + lookahead <= |w| && off + s + lookahead <= |data| &&
      w[..s + lookahead] == data[off..off + s + lookahead]
    requires best <= MAX_MATCH
    ensures best <= len <= MAX_MATCH
    ensures len > best ==> Repeats(data, off + s, s - ms, if len > lookahead then lookahead else len)
  {
    hide HashAt, Longest;
    LongestIsMaximal(w, s, c, best, start);
    if len > best {
      var i :| 0 <= i < |c| && c[i] == ms && MatchLen(w, c[i], s) == len;
      assert Candidate(w, s, c[i]);
      CommonSame(w, ms, s, s + MAX_MATCH);
      RepeatsIn(w, data, off, s, lookahead, ms, len, if len > lookahead then lookahead else len);
    }
  }

  lemma RepeatsIn(w: seq<byte>, data: seq<byte>, off: nat, s: nat, lookahead: nat, ms: nat, len: nat, n: nat)
    requires 0 < ms < s && s - ms <= MAX_DIST && Same(w, ms, s, len) && n <= len && n <= lookahead
    requires s + lookahead <= |w| && off + s + lookahead <= |data| &&
      w[..s + lookahead] == data[off..off + s + lookahead]
    ensures Repeats(data, off + s, s - ms, n)
  {
    var p, d := off + s, s - ms;
    var x, y := data[p..p + n], data[p - d..p - d + n];
    forall i | 0 <= i < n ensures x[i] == y[i] {
      SameAt(w, ms, s, len, i);
      assert w[..s + lookahead][s + i] == data[off..off + s + lookahead][s + i];
      assert w[..s + lookahead][ms + i] == data[off..off + s + lookahead][ms + i];
    }
  }

  lemma StoredBytes(w: seq<byte>, data: seq<byte>, off: nat, b: nat, s: nat, n: nat)
    requires b <= s <= n <= |w| && off + n <= |data| && w[..n] == data[off..off + n]
    ensures data[..off + s] == data[..off + b] + w[b..s]
  {
    forall i | b <= i < s ensures w[i] == data[off + i] { assert w[..n][i] == data[off..off + n][i]; }
  }
}
