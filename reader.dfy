/**
  The other end of the exchange: the command sequence a Type 4 Tag reader
  sends to find and read the NDEF message (select the application, select and
  read the Capability Container, select the file it names, read NLEN, then
  read the message in chunks no larger than the CC's MLe). Running it against
  `Process` states end-to-end what the responder delivers.
 */
module Reader {
  import opened Bytes
  import opened Type4Tag

  /** The READ BINARY command for `le` bytes at `offset`, the offset split
      big-endian into P1 and P2. The responder decodes the same numbers. */
  function ReadCommand(offset: nat, le: byte): (c: seq<byte>)
    requires offset < 0x1_0000
    ensures |c| == 5 && IsReadBinary(c)
    ensures Offset(c) == offset && Le(c) == le
  {
    [0x00, InsReadBinary, offset / 256, offset % 256, le]
  }

  /** SELECT by file identifier, P2 = 0C and no Le, as the responder expects. */
  function SelectFileCommand(fileId: seq<byte>): seq<byte>
  {
    [0x00, 0xA4, 0x00, 0x0C, |fileId| % 256] + fileId
  }

  /** The `n` data bytes of a reply that ends in 90 00, or None. */
  function DataOf(r: Reply, n: nat): (d: Option<seq<byte>>)
    ensures d.Some? ==> |d.value| == n && r == Respond(d.value + SuccessSw)
    ensures r == Respond(FailureSw) ==> d.None?
  {
    if r.Respond? && |r.apdu| == n + 2 && r.apdu[n..] == SuccessSw
    then
      assert r.apdu == r.apdu[..n] + r.apdu[n..];
      Some(r.apdu[..n])
    else None
  }

  /** What a phase of the procedure leaves behind: the responder's flags
      and the data obtained, if the phase succeeded. */
  datatype Phase = Phase(sel: Selection, data: Option<seq<byte>>)

  /** A P1-P2 offset: sixteen bits. */
  type FileOffset = x: nat | x < 0x1_0000

  /** One READ BINARY of `n` bytes at `offset`, as the reader sees it. */
  function ReadStep(sel: Selection, file: seq<byte>, offset: FileOffset, n: byte): Phase
  {
    var o := Process(sel, file, Some(ReadCommand(offset, n)));
    Phase(o.next, DataOf(o.reply, n))
  }

  /** The responder serving `file`, seen through single READ BINARY commands. */
  function ReadsFrom(file: seq<byte>): (Selection, FileOffset, byte) -> Phase
  {
    (sel: Selection, offset: FileOffset, n: byte) => ReadStep(sel, file, offset, n)
  }

  /** Reads `remaining` bytes from `offset` with `read` commands of at most
      `chunk` bytes each, in order, stopping at the first failed reply. */
  function ReadChunks(
    read: (Selection, FileOffset, byte) -> Phase,
    sel: Selection, offset: nat, remaining: nat, chunk: nat)
    : Option<seq<byte>>
    requires 0 < chunk < 256 && offset + remaining <= 0x1_0000
    decreases remaining
  {
    if remaining == 0 then Some([])
    else
      var n := if remaining < chunk then remaining else chunk;
      var step := read(sel, offset, n);
      if step.data.None? then None
      else
        var rest := ReadChunks(read, step.sel, offset + n, remaining - n, chunk);
        if rest.None? then None else Some(step.data.value + rest.value)
  }

  /** Phase one: select the NDEF application, select the Capability
      Container, read its 15 bytes. */
  function DiscoverCc(sel: Selection, file: seq<byte>): Phase
  {
    var o1 := Process(sel, file, Some(SelectAppAid));
    var o2 := Process(o1.next, file, Some(SelectCcFile));
    var o3 := Process(o2.next, file, Some(ReadCommand(0, 15)));
    if o1.reply == o2.reply == Respond(SuccessSw)
    then Phase(o3.next, DataOf(o3.reply, 15))
    else Phase(o3.next, None)
  }

  /** Phase two: select the file with identifier `fileId`, read its two-byte
      NLEN. */
  function OpenNdefFile(sel: Selection, file: seq<byte>, fileId: seq<byte>): Phase
  {
    var o4 := Process(sel, file, Some(SelectFileCommand(fileId)));
    var o5 := Process(o4.next, file, Some(ReadCommand(0, 2)));
    if o4.reply == Respond(SuccessSw)
    then Phase(o5.next, DataOf(o5.reply, 2))
    else Phase(o5.next, None)
  }

  /** The reader's whole procedure, from whatever state the responder is in:
      the chunk size is the CC's MLe, the file is the one its File Control
      TLV names, and the length read is NLEN, which must leave room for
      itself within the maximum NDEF file size the TLV announces. */
  function ReadNdefMessage(sel: Selection, file: seq<byte>): Option<seq<byte>>
  {
    var p1 := DiscoverCc(sel, file);
    if p1.data.None? then None
    else
      var cc := p1.data.value;
      var mle := (cc[3] as int) * 256 + (cc[4] as int);
      var maxSize := (cc[11] as int) * 256 + (cc[12] as int);
      var p2 := OpenNdefFile(p1.sel, file, cc[9..11]);
      if !(0 < mle < 256) || p2.data.None? then None
      else
        var n := (p2.data.value[0] as int) * 256 + (p2.data.value[1] as int);
        if 2 + n > maxSize then None
        else ReadChunks(ReadsFrom(file), p2.sel, 2, n, mle)
  }

  /** `read` serves `file` to a reader in state `sel`: every read keeps the state and returns the requested slice exactly when it lies
      inside the file. */
  ghost predicate ServesSlices(read: (Selection, FileOffset, byte) -> Phase, sel: Selection, file: seq<byte>)
  {
    forall offset: FileOffset, n: byte ::
      read(sel, offset, n)
      == Phase(sel, if offset + n <= |file| then Some(file[offset..offset + n]) else None)
  }

  /** One chunk read from the selected NDEF file: the flags stay, and the
      data is the requested slice exactly when it lies inside the file. */
  lemma ReadOneChunkNdef(sel: Selection, file: seq<byte>, offset: FileOffset, n: byte)
    requires sel.ndef && !sel.cc
    ensures ReadStep(sel, file, offset, n)
         == Phase(sel, if offset + n <= |file| then Some(file[offset..offset + n]) else None)
  {
    var c := ReadCommand(offset, n);
    ReadNdefFile(sel, file, c);
    var o := Process(sel, file, Some(c));
    if offset + n <= |file| {
      assert o.reply.apdu[..n] == file[offset..offset + n];
    }
  }

  /** The responder with its NDEF file selected serves that file. */
  lemma NdefSelectedServesFile(sel: Selection, file: seq<byte>)
    requires sel.ndef && !sel.cc
    ensures ServesSlices(ReadsFrom(file), sel, file)
  {
    forall offset: FileOffset, n: byte
      ensures ReadsFrom(file)(sel, offset, n)
           == Phase(sel, if offset + n <= |file| then Some(file[offset..offset + n]) else None)
    {
      ReadOneChunkNdef(sel, file, offset, n);
    }
  }

  /** Two adjacent slices make up the slice that spans both. */
  lemma SliceConcat(s: seq<byte>, a: nat, b: nat, c: nat)
    requires a <= b <= c <= |s|
    ensures s[a..b] + s[b..c] == s[a..c]
  {
  }

  /** Chunked reading from a responder that serves `file` returns exactly
      the bytes asked for when they lie inside the file, and fails otherwise. */
  lemma {:induction false} ReadChunksOfSlices(
    read: (Selection, FileOffset, byte) -> Phase,
    sel: Selection, file: seq<byte>, offset: nat, remaining: nat, chunk: nat)
    requires ServesSlices(read, sel, file)
    requires 0 < chunk < 256 && offset + remaining <= 0x1_0000 && offset <= |file|
    ensures ReadChunks(read, sel, offset, remaining, chunk)
         == if offset + remaining <= |file| then Some(file[offset..offset + remaining]) else None
    decreases remaining
  {
    if remaining == 0 {
      assert file[offset..offset] == [];
    } else {
      var n := if remaining < chunk then remaining else chunk;
      assert read(sel, offset, n)
          == Phase(sel, if offset + n <= |file| then Some(file[offset..offset + n]) else None);
      if offset + n <= |file| {
        ReadChunksOfSlices(read, sel, file, offset + n, remaining - n, chunk);
        if offset + remaining <= |file| {
          SliceConcat(file, offset, offset + n, offset + remaining);
        }
      }
    }
  }

  /** From any state, phase one obtains the whole Capability Container and
      leaves the CC selected. */
  lemma DiscoverCcFromAnyState(sel: Selection, file: seq<byte>)
    ensures DiscoverCc(sel, file) == Phase(Selection(true, true, false), Some(CcFile))
  {
    SelectAppAlwaysSucceeds(sel, file);
    SelectFileNeedsApp(Selection(true, false, false), file, SelectCcFile);
    var c := ReadCommand(0, 15);
    ReadCcFile(Selection(true, true, false), file, c);
    assert CcFile[..Le(c)] == CcFile;
    var r := CcFile + SuccessSw;
    assert r[..15] == CcFile;
  }

  /** With the CC selected, phase two on the file identifier the CC names
      reads NLEN, the first two bytes of the NDEF file, and leaves the NDEF
      file selected. */
  lemma OpenNdefFileNamedByCc(file: seq<byte>)
    requires |file| >= 2
    ensures OpenNdefFile(Selection(true, true, false), file, CcFile[9..11])
         == Phase(Selection(true, false, true), Some(file[..2]))
  {
    assert SelectFileCommand(CcFile[9..11]) == SelectNdefFile;
    SelectFileNeedsApp(Selection(true, true, false), file, SelectNdefFile);
    ReadNdefFile(Selection(true, false, true), file, ReadCommand(0, 2));
    var r := file[..2] + SuccessSw;
    assert r[..2] == file[..2];
  }

  /** A reader that follows the procedure, from any state of the responder,
      recovers exactly the message the NDEF file was built from, provided
      NLEN and the message fit in the 255-byte maximum the CC announces. */
  lemma ReaderRecoversMessage(sel: Selection, m: seq<byte>)
    requires |m| <= 253
    ensures ReadNdefMessage(sel, NdefFile(m)) == Some(m)
  {
    var file := NdefFile(m);
    DiscoverCcFromAnyState(sel, file);
    assert (CcFile[3] as int) * 256 + (CcFile[4] as int) == 59;
    assert (CcFile[11] as int) * 256 + (CcFile[12] as int) == 255;
    OpenNdefFileNamedByCc(file);
    assert (file[0] as int) * 256 + (file[1] as int) == |m|;
    NdefSelectedServesFile(Selection(true, false, true), file);
    ReadChunksOfSlices(ReadsFrom(file), Selection(true, false, true), file, 2, |m|, 59);
    assert file[2..2 + |m|] == m;
  }

  /** For a longer message NLEN exceeds the CC's maximum size, so a reader
      that follows the procedure gives up before reading it, although the
      service would serve every slice of the file (`NdefSelectedServesFile`
      holds for files of any length). */
  lemma ReaderRefusesOversizedMessage(sel: Selection, m: seq<byte>)
    requires 253 < |m| <= 0xFFFF
    ensures ReadNdefMessage(sel, NdefFile(m)) == None
  {
    var file := NdefFile(m);
    DiscoverCcFromAnyState(sel, file);
    assert (CcFile[3] as int) * 256 + (CcFile[4] as int) == 59;
    assert (CcFile[11] as int) * 256 + (CcFile[12] as int) == 255;
    OpenNdefFileNamedByCc(file);
    assert (file[0] as int) * 256 + (file[1] as int) == |m|;
  }
}
