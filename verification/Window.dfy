/** The sliding window of gzip.c: file_read, fill_window and lm_init. */
module Window {
  import opened Bits
  import opened Limits
  import opened Hash
  import opened LongestMatch
  import opened Dictionary
  import Crc

  const WINDOW_SIZE: nat := 2 * WSIZE

  /** The input file. A read may deliver fewer bytes than asked for, and may fail. */
  class Input {
    const data: seq<byte>
    const table: array<Crc.Word>
    var pos: nat
    var failed: bool
    var crc: Crc.Word
    var isize: Crc.Word             // wraps at 32 bits

    ghost predicate Valid()
      reads this, table
    {
      pos <= |data| && isize == pos % 0x1_0000_0000 && crc == Crc.Feed(0xffff_ffff, data[..pos]) &&
      table.Length == 256 && forall i: byte :: table[i] == Crc.BitSteps(i, 8)
    }

    constructor (data: seq<byte>)
      ensures Valid() && this.data == data && pos == 0 && !failed && fresh(table)
    {
      var t := Crc.FillTable();
      this.data, table, pos, failed, crc, isize := data, t, 0, false, 0xffff_ffff, 0;
      new;
      assert data[..0] == [];
    }

    /** safe_read: at least one byte, unless the file is at its end or the read fails. */
    method SafeRead(buf: array<byte>, at: nat, size: nat) returns (n: nat)
      requires pos <= |data| && 1 <= size && at + size <= buf.Length
      modifies this`pos, this`failed, buf
      ensures n <= size && pos == old(pos) + n <= |data|
      ensures n == 0 ==> pos == |data| || failed
      ensures n > 0 ==> failed == old(failed)
      ensures buf[..at] == old(buf[..at]) && buf[at..at + n] == data[old(pos)..pos] &&
        buf[at + n..] == old(buf[at + n..])
    {
      n :| 0 <= n <= size && pos + n <= |data|;
      if n == 0 {
        failed := failed || pos < |data|;
      } else {
        ghost var b := buf[..];
        for i := 0 to n
          modifies buf
          invariant forall k :: 0 <= k < buf.Length ==>
            buf[k] == if at <= k < at + i then data[pos + (k - at)] else b[k]
        {
          buf[at + i] := data[pos + i];
        }
        assert buf[at..at + n] == data[pos..pos + n];
        assert buf[..at] == b[..at] && buf[at + n..] == b[at + n..];
        pos := pos + n;
      }
    }

    /** file_read: read, and keep the checksum and the size of what has been read. */
    method FileRead(buf: array<byte>, at: nat, size: nat) returns (n: nat)
      requires Valid() && 1 <= size && at + size <= buf.Length
      modifies this`pos, this`failed, this`crc, this`isize, buf
      ensures Valid() && n <= size && pos == old(pos) + n <= |data|
      ensures n == 0 ==> pos == |data| || failed
      ensures n > 0 ==> failed == old(failed)
      ensures buf[..at] == old(buf[..at]) && buf[at..at + n] == data[old(pos)..pos] &&
        buf[at + n..] == old(buf[at + n..])
    {
      hide Crc.BitSteps, Crc.Feed;
      n := SafeRead(buf, at, size);
      if n != 0 {
        crc := Crc.UpdateCrc(crc, buf, at, n, table);
        Crc.FeedConcat(0xffff_ffff, data[..pos - n], data[pos - n..pos]);
        assert data[..pos - n] + data[pos - n..pos] == data[..pos];
        isize := (isize + n) % 0x1_0000_0000;
      }
    }
  }

  class Window {
    const window: array<byte>
    const prev: array<ush>        // links between strings of equal hash; the heads of the chains from WSIZE on
    const file: Input
    var insH: nat                 // hash of the string to be inserted
    var strstart: nat             // start of the string to insert
    var lookahead: nat            // valid bytes from strstart on
    var blockStart: int           // window position of the current block, negative if it slid out
    var matchStart: int
    var eofile: bool
    ghost var off: nat            // input bytes that slid out of the window

    ghost predicate Shape()
    {
      window.Length == WINDOW_MEM && prev.Length == 2 * WSIZE
    }

    /** The window holds the end of the input read so far. */
    ghost predicate Holds()
      reads this, window, file, file.table
    {
      Shape() && file.Valid() && strstart + lookahead <= WINDOW_SIZE && file.pos == off + strstart + lookahead &&
      window[..strstart + lookahead] == file.data[off..file.pos] &&
      (eofile ==> file.failed || file.pos == |file.data|)
    }

    /** ... and the dictionary has the strings before strstart. */
    ghost predicate Valid()
      reads this, window, prev, file, file.table
    {
      Holds() && Linked(window[..], prev[..], strstart) && (strstart > 0 && !eofile ==> lookahead >= 2)
    }

    ghost predicate HashReady()
      reads this, window
    {
      Ready(window[..], insH, strstart)
    }

    constructor (window: array<byte>, prev: array<ush>, file: Input)
      ensures this.window == window && this.prev == prev && this.file == file
    {
      this.window, this.prev, this.file := window, prev, file;
      insH, strstart, lookahead, blockStart, matchStart, eofile, off := 0, 0, 0, 0, 0, false, 0;
    }

    /** The first part of fill_window: move the upper half of the window to the lower one. */
    method Slide()
      requires Valid() && strstart >= WSIZE + MAX_DIST && lookahead >= 2
      modifies this`strstart, this`blockStart, this`matchStart, this`off, window, prev
      ensures Valid() && off == old(off) + WSIZE && strstart == old(strstart) - WSIZE
      ensures blockStart == old(blockStart) - WSIZE && matchStart == old(matchStart) - WSIZE
      ensures old(HashReady()) ==> HashReady()
    {
      hide Linked, Ready, Input.Valid;
      HoldsFacts();
      ghost var w, p, s := window[..], prev[..], strstart;
      forall i | 0 <= i < WSIZE { window[i] := window[i + WSIZE]; }
      matchStart := matchStart - WSIZE;
      strstart := strstart - WSIZE;
      blockStart := blockStart - WSIZE;
      SlideLinks(prev, WSIZE, WSIZE + HASH_SIZE);
      SlideLinks(prev, 0, WSIZE);
      off := off + WSIZE;
      DictSlides(w, window[..], p, prev[..], s);
      SlidBytes(w, window[..], s + lookahead);
      assert w[..s + lookahead] == file.data[off - WSIZE..file.pos];
      assert file.data[off..file.pos] == file.data[off - WSIZE..file.pos][WSIZE..];
    }

    /** The second part of fill_window: read at the end of the lookahead. */
    method Refill(more: nat)
      requires Valid() && !eofile && 1 <= more && strstart + lookahead + more <= WINDOW_SIZE
      modifies this`lookahead, this`eofile, window, file`pos, file`failed, file`crc, file`isize
      ensures Valid() && old(lookahead) <= lookahead && old(file.pos) <= file.pos
      ensures !eofile ==> old(lookahead) < lookahead
      ensures old(lookahead) >= 2 && old(HashReady()) ==> HashReady()
    {
      hide Linked, Ready, Input.Valid;
      ghost var w, end, pos := window[..], strstart + lookahead, file.pos;
      var n := file.FileRead(window, strstart + lookahead, more);
      assert window[..end] == w[..end];
      if lookahead >= 2 { DictFrame(w, window[..], prev[..], strstart, end); } else {
        EmptyDict(w, window[..], prev[..]); }
      assert Linked(window[..], prev[..], strstart);
      ReadOn(w, window[..], file.data, off, pos, n, end);
      ghost var w' := window[..];
      if n == 0 { eofile := true; } else { lookahead := lookahead + n; }
      assert window[..] == w' && window[..end + n] == w'[..end + n];
      assert Holds();
    }

    /** fill_window: slide first if there is too little room behind the lookahead, then read. */
    method FillWindow()
      requires Valid() && !eofile && lookahead < MIN_LOOKAHEAD
      modifies this`strstart, this`lookahead, this`blockStart, this`matchStart, this`eofile, this`off
      modifies window, prev, file`pos, file`failed, file`crc, file`isize
      ensures Valid() && old(lookahead) <= lookahead && old(file.pos) <= file.pos
      ensures !eofile ==> old(lookahead) < lookahead
      ensures off + strstart == old(off + strstart) && off + blockStart == old(off + blockStart) &&
        off + matchStart == old(off + matchStart)
      ensures strstart == old(strstart) || strstart >= MAX_DIST
      ensures old(lookahead) >= 2 && old(HashReady()) ==> HashReady()
    {
      hide Holds, Linked, Ready;
      HoldsFacts();
      var more := WINDOW_SIZE - lookahead - strstart;
      if strstart >= WSIZE + MAX_DIST {
        Slide();
        more := more + WSIZE;
      }
      HoldsFacts();
      Refill(more);
    }

    lemma HoldsFacts()
      requires Holds()
      ensures strstart + lookahead <= WINDOW_SIZE && file.pos <= |file.data|
    {
    }

    /** The loop around fill_window. */
    method FillUp()
      requires Valid()
      modifies this`strstart, this`lookahead, this`blockStart, this`matchStart, this`eofile, this`off
      modifies window, prev, file`pos, file`failed, file`crc, file`isize
      ensures Valid() && old(lookahead) <= lookahead && old(file.pos) <= file.pos
      ensures (lookahead >= MIN_LOOKAHEAD || eofile) && (old(eofile) ==> eofile && lookahead == old(lookahead))
      ensures off + strstart == old(off + strstart) && off + blockStart == old(off + blockStart) &&
        off + matchStart == old(off + matchStart)
      ensures strstart == old(strstart) || strstart >= MAX_DIST
      ensures (old(lookahead) >= 2 || old(eofile)) && old(HashReady()) ==> HashReady()
    {
      hide Valid, HashReady;
      while lookahead < MIN_LOOKAHEAD && !eofile
        invariant Valid() && old(lookahead) <= lookahead && old(file.pos) <= file.pos
        invariant off + strstart == old(off + strstart)
        invariant off + blockStart == old(off + blockStart) && off + matchStart == old(off + matchStart)
        invariant strstart == old(strstart) || strstart >= MAX_DIST
        invariant (old(lookahead) >= 2 || old(eofile)) && old(HashReady()) ==> HashReady()
        invariant old(eofile) ==> eofile && lookahead == old(lookahead)
        decreases MIN_LOOKAHEAD - lookahead, !eofile
      {
        FillWindow();
      }
    }

    /** The start of lm_init: empty chains and the first read. */
    method FirstRead() returns (n: nat)
      requires Shape() && file.Valid() && file.pos == 0
      modifies this, window, prev, file`pos, file`failed, file`crc, file`isize
      ensures Valid() && off == 0 && strstart == 0 && blockStart == 0 && lookahead == n && eofile == (n == 0)
    {
      hide Linked, Ready, Input.Valid;
      ClearHeads(prev);
      strstart, blockStart, off := 0, 0, 0;
      NoStrings(window[..], prev[..]);
      ghost var w := window[..];
      n := file.FileRead(window, 0, WINDOW_SIZE);
      lookahead, eofile := n, n == 0;
      EmptyDict(w, window[..], prev[..]);
      ReadOn(w, window[..], file.data, 0, 0, n, 0);
    }

    /** lm_init. */
    method LmInit()
      requires Shape() && file.Valid() && file.pos == 0
      modifies this, window, prev, file`pos, file`failed, file`crc, file`isize
      ensures Valid() && off == 0 && strstart == 0 && blockStart == 0
      ensures lookahead >= MIN_LOOKAHEAD || eofile
      ensures lookahead > 0 ==> HashReady()
    {
      hide Linked, Ready, Input.Valid, Update;
      var n := FirstRead();
      if n == 0 { return; }
      FillUp();
      insH := Update(Update(0, window[0]), window[1]);
      FirstHash(window[..]);
    }
  }

  method ClearHeads(prev: array<ush>)
    requires prev.Length == 2 * WSIZE
    modifies prev
    ensures forall i :: WSIZE <= i < WSIZE + HASH_SIZE ==> prev[i] == 0
  {
    for n := 0 to HASH_SIZE
      invariant forall i :: WSIZE <= i < WSIZE + n ==> prev[i] == 0
    {
      prev[WSIZE + n] := 0;
    }
  }

  lemma NoStrings(w: seq<byte>, prev: seq<ush>)
    requires |prev| == 2 * WSIZE && |w| >= 2 && forall i :: WSIZE <= i < WSIZE + HASH_SIZE ==> prev[i] == 0
    ensures Linked(w, prev, 0)
  {
  }

  lemma EmptyDict(w: seq<byte>, w': seq<byte>, prev: seq<ush>)
    requires Linked(w, prev, 0) && |w| == |w'|
    ensures Linked(w', prev, 0)
  {
    forall i | WSIZE <= i < WSIZE + HASH_SIZE
      ensures HeadOk(w', prev[i], i - WSIZE, 0)
    {
      assert HeadOk(w, prev[i], i - WSIZE, 0);
    }
  }

  lemma FirstHash(w: seq<byte>)
    requires |w| >= 2
    ensures Ready(w, Update(Update(0, w[0]), w[1]), 0)
  {
  }

  lemma ReadOn(w: seq<byte>, w': seq<byte>, data: seq<byte>, off: nat, pos: nat, n: nat, end: nat)
    requires end + n <= |w| == |w'| && off <= pos && pos + n <= |data| && pos - off == end
    requires w[..end] == data[off..pos] && w'[..end] == w[..end] && w'[end..end + n] == data[pos..pos + n]
    ensures w'[..end + n] == data[off..pos + n]
  {
    assert w'[..end + n] == w'[..end] + w'[end..end + n];
  }

  lemma SlidBytes(w: seq<byte>, w': seq<byte>, n: nat)
    requires |w| == |w'| == WINDOW_MEM && WSIZE <= n <= 2 * WSIZE &&
      forall i :: 0 <= i < WSIZE ==> w'[i] == w[i + WSIZE]
    ensures w'[..n - WSIZE] == w[..n][WSIZE..]
  {
  }
}
