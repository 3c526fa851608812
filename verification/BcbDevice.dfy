/** bootloader.c: the bootloader message in the misc partition. */
module BcbDevice {
  import opened Bits
  import opened BcbText
  import BcbArgs

  const MESSAGE_SIZE: nat := 1088       // command[32], status[32], recovery[1024]
  const RECOVERY_AT: nat := 64
  const MISC_PAGES: nat := 3
  const MISC_COMMAND_PAGE: nat := 1

  type Message = m: seq<byte> | |m| == MESSAGE_SIZE witness seq(MESSAGE_SIZE, _ => 0)

  /** The recovery field of a message. */
  function Field(m: Message): (s: CString)
  {
    BcbArgs.Text(m[RECOVERY_AT..])
  }

  /** What becomes of a write: it is done, or fails before anything is written, or fails under way and leaves some
      bytes. */
  datatype Io = Done | Refused | Torn(left: seq<byte>)

  class Misc {
    const part: array<byte>
    const mtd: bool               // otherwise a block device
    const writeSize: nat          // the page size of an MTD partition

    ghost predicate Valid()
    {
      if mtd then writeSize * MISC_PAGES <= part.Length && MESSAGE_SIZE <= writeSize * (MISC_PAGES - MISC_COMMAND_PAGE)
      else MESSAGE_SIZE <= part.Length
    }

    /** Where the message starts. */
    function Offset(): (n: nat)
    {
      if mtd then writeSize * MISC_COMMAND_PAGE else 0
    }

    constructor (part: array<byte>, mtd: bool, writeSize: nat)
      ensures this.part == part && this.mtd == mtd && this.writeSize == writeSize
    {
      this.part, this.mtd, this.writeSize := part, mtd, writeSize;
    }

    /** The message in the partition. */
    function Stored(): (m: Message)
      requires Valid()
      reads part
    {
      part[Offset()..Offset() + MESSAGE_SIZE]
    }

    /** get_bootloader_message; fails says that an I/O call fails. */
    method Get(fails: bool) returns (m: Option<Message>)
      requires Valid()
      ensures m == if fails then None else Some(Stored())
    {
      if fails { return None; }
      if mtd {
        var size := writeSize * MISC_PAGES;
        var data := new byte[size](i requires 0 <= i < size reads part => part[i]);
        var at := writeSize * MISC_COMMAND_PAGE;
        assert data[at..at + MESSAGE_SIZE] == part[at..at + MESSAGE_SIZE];
        m := Some(data[at..at + MESSAGE_SIZE]);
      } else {
        assert part[..MESSAGE_SIZE] == Stored();
        m := Some(part[..MESSAGE_SIZE]);
      }
    }

    /** How much of the partition a write goes over: on MTD all three pages, otherwise the message. */
    function Written(): (n: nat)
    {
      if mtd then writeSize * MISC_PAGES else MESSAGE_SIZE
    }

    /** set_bootloader_message: on MTD all pages are read, patched and written back; nothing but the message changes.
        A write that fails under way leaves anything in what it goes over. */
    method Set(m: Message, io: Io) returns (ok: bool)
      requires Valid()
      modifies part
      ensures ok == io.Done? && part[Written()..] == old(part[Written()..])
      ensures ok ==> Stored() == m && part[..Offset()] == old(part[..Offset()])
      ensures ok ==> part[Offset() + MESSAGE_SIZE..] == old(part[Offset() + MESSAGE_SIZE..])
      ensures io.Refused? ==> part[..] == old(part[..])
    {
      if io.Refused? { return false; }
      if io.Torn? {
        var size := Written();
        forall i | 0 <= i < size && i < |io.left| { part[i] := io.left[i]; }
        return false;
      }
      if mtd {
        var size, at := writeSize * MISC_PAGES, writeSize * MISC_COMMAND_PAGE;
        var data := new byte[size](i requires 0 <= i < size reads part => part[i]);
        forall i | 0 <= i < MESSAGE_SIZE { data[at + i] := m[i]; }
        forall i | 0 <= i < size { part[i] := data[i]; }
      } else {
        forall i | 0 <= i < MESSAGE_SIZE { part[i] := m[i]; }
      }
      return true;
    }
  }

  const BOOT_RECOVERY: CString := [98, 111, 111, 116, 45, 114, 101, 99, 111, 118, 101, 114, 121]

  function ZeroMessage(): (m: Message)
    ensures forall i :: 0 <= i < MESSAGE_SIZE ==> m[i] == 0
  {
    seq(MESSAGE_SIZE, _ => 0)
  }

  /** The message that get_args starts from: what was read, or zeros. */
  function Basis(read: Option<Message>): (m: Message)
  {
    if read.Some? then read.value else ZeroMessage()
  }

  /** The message that get_args writes: a boot command, the old status, and the arguments. */
  method Compose(given: seq<CString>, read: Option<Message>, file: Option<CString>)
    returns (r: Option<(seq<CString>, Message)>)
    ensures r.Some? == BcbArgs.ChooseArgs(given, Field(Basis(read)), file).Some?
    ensures r.Some? ==> Some(r.value.0) == BcbArgs.ChooseArgs(given, Field(Basis(read)), file)
    ensures r.Some? ==> Field(r.value.1) == Image(r.value.0)
    ensures r.Some? ==>
      BcbArgs.Text(r.value.1[..32]) == BOOT_RECOVERY && r.value.1[32..RECOVERY_AT] == Basis(read)[32..RECOVERY_AT]
  {
    hide BcbArgs.ChooseArgs, BcbArgs.Text, Image;
    var boot := Basis(read);
    var rec := new byte[ROOM](i requires 0 <= i < ROOM => boot[RECOVERY_AT + i]);
    assert rec[..] == boot[RECOVERY_AT..];
    var args := BcbArgs.GetArgs(given, rec, file);
    if args.None? { return None; }
    var command := BOOT_RECOVERY + [0] + boot[|BOOT_RECOVERY| + 1..32];
    BcbArgs.TextIs(command, |BOOT_RECOVERY|);
    assert command[..|BOOT_RECOVERY|] == BOOT_RECOVERY;
    var m: Message := command + boot[32..RECOVERY_AT] + rec[..];
    assert m[RECOVERY_AT..] == rec[..] && m[..32] == command && m[32..RECOVERY_AT] == boot[32..RECOVERY_AT];
    return Some((args.value, m));
  }

  /** get_args on the device: reading and writing may each fail. */
  method GetArgs(misc: Misc, given: seq<CString>, file: Option<CString>, readFails: bool, io: Io)
    returns (r: Option<seq<CString>>)
    requires misc.Valid()
    modifies misc.part
    ensures r == BcbArgs.ChooseArgs(given, if readFails then [] else old(Field(misc.Stored())), file)
    ensures r.Some? && io.Done? ==>
      Field(misc.Stored()) == Image(r.value) && BcbArgs.Text(misc.Stored()[..32]) == BOOT_RECOVERY
    ensures r.None? || io.Refused? ==> misc.part[..] == old(misc.part[..])
    ensures misc.part[misc.Written()..] == old(misc.part[misc.Written()..])
  {
    hide BcbArgs.ChooseArgs, BcbArgs.Text, Image;
    Zeroed();
    var read := misc.Get(readFails);
    var c := Compose(given, read, file);
    if c.None? { return None; }
    var ok := misc.Set(c.value.1, io);
    return Some(c.value.0);
  }

  /** The part of finish_recovery that matters for the next start: the message is all zeros. */
  method Clear(misc: Misc, io: Io) returns (ok: bool)
    requires misc.Valid()
    modifies misc.part
    ensures ok == io.Done? && (ok ==> misc.Stored() == ZeroMessage() && Field(misc.Stored()) == [])
    ensures ok ==> misc.part[..misc.Offset()] == old(misc.part[..misc.Offset()])
    ensures ok ==> misc.part[misc.Offset() + MESSAGE_SIZE..] == old(misc.part[misc.Offset() + MESSAGE_SIZE..])
    ensures io.Refused? ==> misc.part[..] == old(misc.part[..])
    ensures misc.part[misc.Written()..] == old(misc.part[misc.Written()..])
  {
    hide BcbArgs.Text;
    Zeroed();
    ok := misc.Set(ZeroMessage(), io);
  }

  lemma Zeroed()
    ensures Field(ZeroMessage()) == []
  {
  }
}
