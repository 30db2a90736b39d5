/**
  The NFC Forum Type 4 Tag responder as pure functions: the fixed command and
  response byte strings, the Capability Container, the NDEF file framing, and
  `Process`, the meaning of one `processCommandApdu` call as a function of the
  selection flags, the cached NDEF file and the command bytes.
  The class in module HostApdu is proved to compute exactly `Process`.
 */
module Type4Tag {
  import opened Bytes

  /** SELECT by name of the NDEF Tag Application, AID D2 76 00 00 85 01 01,
      with a trailing Le of 00 (ISO/IEC 7816-4 section 7.1.1). */
  const SelectAppAid: seq<byte> :=
    [0x00, 0xA4, 0x04, 0x00, 0x07, 0xD2, 0x76, 0x00, 0x00, 0x85, 0x01, 0x01, 0x00]

  /** SELECT by file identifier E103 (Capability Container), P2 = 0C, no Le. */
  const SelectCcFile: seq<byte> := [0x00, 0xA4, 0x00, 0x0C, 0x02, 0xE1, 0x03]

  /** SELECT by file identifier E104 (NDEF file), P2 = 0C, no Le. */
  const SelectNdefFile: seq<byte> := [0x00, 0xA4, 0x00, 0x0C, 0x02, 0xE1, 0x04]

  const SuccessSw: seq<byte> := [0x90, 0x00]

  /** The one failure status word the responder ever sends ("file not found"). */
  const FailureSw: seq<byte> := [0x6A, 0x82]

  /** The 15-byte Capability Container: CCLEN 000F, mapping version 2.0,
      MLe 003B, MLc 0034, then the NDEF File Control TLV (tag 04, length 06,
      file E104, maximum size 00FF, read access 00, write access FF). */
  const CcFile: seq<byte> :=
    [0x00, 0x0F, 0x20, 0x00, 0x3B, 0x00, 0x34, 0x04, 0x06, 0xE1, 0x04, 0x00, 0xFF, 0x00, 0xFF]

  const InsReadBinary: byte := 0xB0

  /** The three selection flags of the service. */
  datatype Selection = Selection(app: bool, cc: bool, ndef: bool)

  /** The flags after `resetState`. */
  const Idle := Selection(false, false, false)

  /** The invariant every operation keeps: at most one file is selected, and a
      selected file implies a selected application. */
  predicate Consistent(s: Selection) {
    !(s.cc && s.ndef) && ((s.cc || s.ndef) ==> s.app)
  }

  /** What one call does for the transport: a response APDU, or an exception
      (an index outside the command array) that leaves the call unanswered. */
  datatype Reply = Respond(apdu: seq<byte>) | Crash

  /** The reply together with the selection flags the call leaves behind. */
  datatype Outcome = Outcome(reply: Reply, next: Selection)

  /** A command that takes the READ BINARY branch: CLA 00, INS B0. */
  predicate IsReadBinary(c: seq<byte>) {
    |c| >= 2 && c[0] == 0x00 && c[1] == InsReadBinary
  }

  /** The READ BINARY offset, P1 as the high byte and P2 as the low byte. */
  function Offset(c: seq<byte>): nat
    requires |c| >= 4
  {
    (c[2] as int) * 256 + (c[3] as int)
  }

  /** The requested length Le, the fifth byte of the command. */
  function Le(c: seq<byte>): byte
    requires |c| >= 5
  {
    c[4]
  }

  /** The file bytes `[offset, offset + le)` followed by 90 00. */
  function DataReply(data: seq<byte>): (r: seq<byte>)
    ensures |r| == |data| + 2 && r[..|data|] == data && r[|data|..] == SuccessSw
  {
    data + SuccessSw
  }

  /** READ BINARY once the command bytes are known to be long enough: the
      CC flag is looked at first, then the NDEF flag, and with neither set the
      command falls through to the final 6A 82. */
  function ReadBinary(sel: Selection, file: seq<byte>, offset: nat, le: byte): Reply
  {
    if sel.cc then
      if offset == 0 && le <= |CcFile| then Respond(DataReply(CcFile[..le]))
      else Respond(FailureSw)
    else if sel.ndef then
      if offset + le <= |file| then Respond(DataReply(file[offset..offset + le]))
      else Respond(FailureSw)
    else Respond(FailureSw)
  }

  /** `Arrays.equals` on two non-null arrays: the lengths first, then the
      elements. The length test is implied by the equality; it is kept
      because it decides most comparisons at once. */
  predicate SameBytes(a: seq<byte>, b: seq<byte>) {
    |a| == |b| && a == b
  }

  /** One `processCommandApdu` call. `cmd` is None for a null command. The
      three SELECT commands are recognised by equality of the whole command;
      anything else is inspected byte by byte, and reading a byte the command
      does not have is an exception. The cached NDEF file is never changed
      here, so only the flags are returned. */
  function Process(sel: Selection, file: seq<byte>, cmd: Option<seq<byte>>): (o: Outcome)
    ensures Consistent(sel) ==> Consistent(o.next)
    ensures o.next != sel ==> o.reply == Respond(SuccessSw)
    ensures o.reply.Crash? ==> o.next == sel
  {
    match cmd
    case None => Outcome(Respond(FailureSw), sel)
    case Some(c) =>
      if SameBytes(SelectAppAid, c) then
        Outcome(Respond(SuccessSw), Selection(true, false, false))
      else if sel.app && SameBytes(SelectCcFile, c) then
        Outcome(Respond(SuccessSw), sel.(cc := true, ndef := false))
      else if sel.app && SameBytes(SelectNdefFile, c) then
        Outcome(Respond(SuccessSw), sel.(cc := false, ndef := true))
      else if |c| < 1 then Outcome(Crash, sel)
      else if c[0] != 0x00 then Outcome(Respond(FailureSw), sel)
      else if |c| < 2 then Outcome(Crash, sel)
      else if c[1] != InsReadBinary then Outcome(Respond(FailureSw), sel)
      else if |c| < 5 then Outcome(Crash, sel)
      else Outcome(ReadBinary(sel, file, Offset(c), Le(c)), sel)
  }

  /** True when `c` is one of the SELECT commands that `Process` acts on in
      selection `sel`. */
  predicate IsAcceptedSelect(sel: Selection, c: seq<byte>) {
    c == SelectAppAid || (sel.app && (c == SelectCcFile || c == SelectNdefFile))
  }

  /** The NDEF file built by `updateNdefMessageFromPrefs` from the serialized
      message `m`: NLEN as `(|m| >> 8) & 0xFF` and `|m| & 0xFF`, then `m`. */
  function NdefFile(m: seq<byte>): (f: seq<byte>)
    ensures |f| == |m| + 2
    ensures (f[0] as int) * 256 + (f[1] as int) == |m| % 0x1_0000
    ensures f[2..] == m
  {
    NlenBytes(|m|);
    [(|m| / 256) % 256, |m| % 256] + m
  }

  /** The two NLEN bytes, high then low, spell the length modulo 65536. */
  lemma NlenBytes(n: nat)
    ensures ((n / 256) % 256) * 256 + n % 256 == n % 0x1_0000
  {
    var q, r := n / 0x1_0000, n % 0x1_0000;
    assert n == 0x1_0000 * q + r;
    assert n / 256 == 256 * q + r / 256;
    assert (n / 256) % 256 == r / 256;
    assert n % 256 == r % 256;
  }

  /** How a reader interprets an NDEF file: NLEN, then that many message bytes. */
  function ParseNdefFile(f: seq<byte>): Option<seq<byte>>
  {
    if |f| < 2 then None
    else
      var n := (f[0] as int) * 256 + (f[1] as int);
      if 2 + n <= |f| then Some(f[2..2 + n]) else None
  }

  // ---------------------------------------------------------------------
  // Properties of the responder

  /** The application SELECT succeeds from any state, selects the application
      and deselects both files. */
  lemma SelectAppAlwaysSucceeds(sel: Selection, file: seq<byte>)
    ensures Process(sel, file, Some(SelectAppAid))
         == Outcome(Respond(SuccessSw), Selection(true, false, false))
  {
  }

  /** A file SELECT succeeds exactly when the application is selected; it then
      selects that file and deselects the other. Otherwise it falls through to
      6A 82 and nothing changes. */
  lemma SelectFileNeedsApp(sel: Selection, file: seq<byte>, c: seq<byte>)
    requires c == SelectCcFile || c == SelectNdefFile
    ensures Process(sel, file, Some(c))
         == if sel.app
            then Outcome(Respond(SuccessSw), Selection(true, c == SelectCcFile, c == SelectNdefFile))
            else Outcome(Respond(FailureSw), sel)
  {
  }

  /** A READ BINARY command is never one of the SELECT commands, so with at
      least five bytes it always reaches the READ BINARY branch and leaves the
      flags alone. */
  lemma ProcessReadBinary(sel: Selection, file: seq<byte>, c: seq<byte>)
    requires IsReadBinary(c) && |c| >= 5
    ensures Process(sel, file, Some(c)) == Outcome(ReadBinary(sel, file, Offset(c), Le(c)), sel)
  {
    assert c[1] != SelectAppAid[1] && c[1] != SelectCcFile[1] && c[1] != SelectNdefFile[1];
  }

  /** READ BINARY with the CC selected succeeds if and only if the offset is 0
      and Le is at most 15; the reply is then the first Le bytes of the CC and
      90 00, otherwise 6A 82. The flags never change. */
  lemma ReadCcFile(sel: Selection, file: seq<byte>, c: seq<byte>)
    requires sel.cc && IsReadBinary(c) && |c| >= 5
    ensures Process(sel, file, Some(c)).next == sel
    ensures var r := Process(sel, file, Some(c)).reply;
            r.Respond? &&
            (r.apdu != FailureSw <==> Offset(c) == 0 && Le(c) <= 15) &&
            (r.apdu != FailureSw ==>
               |r.apdu| == Le(c) + 2 && r.apdu == CcFile[..Le(c)] + SuccessSw)
  {
    ProcessReadBinary(sel, file, c);
  }

  /** READ BINARY with the NDEF file selected (and not the CC) succeeds if and
      only if `offset + Le` stays inside the cached file; the reply is then
      that slice and 90 00, otherwise 6A 82. */
  lemma ReadNdefFile(sel: Selection, file: seq<byte>, c: seq<byte>)
    requires sel.ndef && !sel.cc && IsReadBinary(c) && |c| >= 5
    ensures Process(sel, file, Some(c)).next == sel
    ensures var r := Process(sel, file, Some(c)).reply;
            r.Respond? &&
            (r.apdu != FailureSw <==> Offset(c) + Le(c) <= |file|) &&
            (r.apdu != FailureSw ==>
               r.apdu == file[Offset(c)..Offset(c) + Le(c)] + SuccessSw)
  {
    ProcessReadBinary(sel, file, c);
  }

  /** The cases answered by exactly 6A 82 without any change: a null command,
      a READ BINARY with no file selected, a command whose CLA is not 00, and a
      CLA-00 command that is neither an accepted SELECT nor a READ BINARY. */
  lemma FailureCases(sel: Selection, file: seq<byte>, cmd: Option<seq<byte>>)
    requires
      || cmd.None?
      || (cmd.Some? && IsReadBinary(cmd.value) && |cmd.value| >= 5 && !sel.cc && !sel.ndef)
      || (cmd.Some? && |cmd.value| >= 1 && cmd.value[0] != 0x00)
      || (cmd.Some? && |cmd.value| >= 2 && !IsAcceptedSelect(sel, cmd.value)
            && !IsReadBinary(cmd.value))
    ensures Process(sel, file, cmd) == Outcome(Respond(FailureSw), sel)
  {
  }

  /** The call throws exactly when it reads past the end of the command: an
      empty command, a lone CLA byte 00, or a READ BINARY header shorter than
      five bytes; none of these is an accepted SELECT. */
  lemma CrashExactly(sel: Selection, file: seq<byte>, c: seq<byte>)
    ensures Process(sel, file, Some(c)).reply.Crash? <==>
              |c| == 0 || (|c| == 1 && c[0] == 0x00) || (IsReadBinary(c) && |c| < 5)
  {
    if |c| < 5 {
      assert |SelectAppAid| == 13 && |SelectCcFile| == 7 && |SelectNdefFile| == 7;
      assert !IsAcceptedSelect(sel, c);
    }
  }

  /** Every response is exactly 6A 82 or ends in the success word 90 00. */
  lemma ResponseEndsInStatusWord(sel: Selection, file: seq<byte>, cmd: Option<seq<byte>>)
    ensures var r := Process(sel, file, cmd).reply;
            r.Respond? ==>
              r.apdu == FailureSw || (|r.apdu| >= 2 && r.apdu[|r.apdu| - 2..] == SuccessSw)
  {
  }

  /** The flags after answering the commands of `cmds` one by one. An
      exception is not caught, so it ends the service and the session with
      it: the commands after the first `Crash` are not answered by this
      service, and `Run` stops there. */
  function Run(sel: Selection, file: seq<byte>, cmds: seq<Option<seq<byte>>>): Selection
    decreases |cmds|
  {
    if cmds == [] then sel
    else
      var o := Process(sel, file, cmds[0]);
      if o.reply.Crash? then o.next else Run(o.next, file, cmds[1..])
  }

  /** No sequence of commands can reach an inconsistent selection from a
      consistent one, in particular from the state `resetState` leaves. */
  lemma {:induction false} RunKeepsConsistent(sel: Selection, file: seq<byte>, cmds: seq<Option<seq<byte>>>)
    requires Consistent(sel)
    ensures Consistent(Run(sel, file, cmds))
    decreases |cmds|
  {
    if cmds != [] {
      RunKeepsConsistent(Process(sel, file, cmds[0]).next, file, cmds[1..]);
    }
  }

  /** After a reset nothing is selected until the application SELECT comes:
      file SELECTs and reads alone never leave the idle state. */
  lemma {:induction false} IdleUntilAppSelect(file: seq<byte>, cmds: seq<Option<seq<byte>>>)
    requires forall i :: 0 <= i < |cmds| ==> cmds[i] != Some(SelectAppAid)
    ensures Run(Idle, file, cmds) == Idle
    decreases |cmds|
  {
    if cmds != [] {
      assert Process(Idle, file, cmds[0]).next == Idle;
      IdleUntilAppSelect(file, cmds[1..]);
    }
  }

  /** NLEN read back from the file equals the message length, and the reader
      recovers the message, whenever the length fits in 16 bits. */
  lemma NdefFileRoundTrip(m: seq<byte>)
    requires |m| <= 0xFFFF
    ensures ParseNdefFile(NdefFile(m)) == Some(m)
  {
    var f := NdefFile(m);
    assert f[2..2 + |m|] == f[2..];
  }

  /** Without an overflow check the NLEN prefix wraps modulo 65536, so a
      reader of an over-long file sees only the first `|m| mod 65536` bytes. */
  lemma NdefFileNlenWraps(m: seq<byte>)
    requires |m| > 0xFFFF
    ensures ParseNdefFile(NdefFile(m)) == Some(m[..|m| % 0x1_0000])
  {
    var f := NdefFile(m);
    var n := |m| % 0x1_0000;
    assert f[2..2 + n] == f[2..][..n];
  }

  /** The Capability Container describes itself and the NDEF file the
      responder serves: CCLEN is its own length, the mapping version is 2.0,
      the File Control TLV names the file that SELECT NDEF selects, reading is
      always granted and writing never. */
  lemma CapabilityContainerFields()
    ensures (CcFile[0] as int) * 256 + (CcFile[1] as int) == |CcFile| == 15
    ensures CcFile[2] == 0x20
    ensures CcFile[7] == 0x04 && CcFile[8] == 0x06
    ensures CcFile[9..11] == SelectNdefFile[5..7]
    ensures CcFile[13] == 0x00 && CcFile[14] == 0xFF
  {
  }
}
