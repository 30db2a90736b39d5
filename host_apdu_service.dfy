/**
  The card-emulation service object: three selection flags and the cached
  NDEF file, updated in place by `processCommandApdu`, `resetState` and the
  NDEF file builder. Every method is proved against the functions of module
  Type4Tag.
 */
module HostApdu {
  import opened Bytes
  import opened Type4Tag

  /** `Arrays.equals(expected, actual)` for a non-null `actual`: the lengths
      are compared first, then the elements one by one. */
  method ArraysEquals(expected: seq<byte>, actual: array<byte>) returns (eq: bool)
    ensures eq <==> SameBytes(expected, actual[..])
  {
    if |expected| != actual.Length {
      return false;
    }
    var i := 0;
    while i < actual.Length
      invariant 0 <= i <= actual.Length
      invariant forall k :: 0 <= k < i ==> expected[k] == actual[k]
    {
      if expected[i] != actual[i] {
        return false;
      }
      i := i + 1;
    }
    assert expected == actual[..];
    return true;
  }

  /** `System.arraycopy(src, srcPos, dest, destPos, length)` where the
      caller has already checked both ranges: `dest[destPos..destPos+length)`
      receives `src[srcPos..srcPos+length)` and nothing else in `dest` moves. */
  method ArrayCopy(src: seq<byte>, srcPos: nat, dest: array<byte>, destPos: nat, length: nat)
    requires srcPos + length <= |src| && destPos + length <= dest.Length
    modifies dest
    ensures dest[..destPos] == old(dest[..destPos])
    ensures dest[destPos..destPos + length] == src[srcPos..srcPos + length]
    ensures dest[destPos + length..] == old(dest[destPos + length..])
  {
    var i := 0;
    while i < length
      invariant 0 <= i <= length
      invariant forall k :: 0 <= k < destPos ==> dest[k] == old(dest[k])
      invariant forall k :: destPos <= k < destPos + i ==> dest[k] == src[srcPos + k - destPos]
      invariant forall k :: destPos + length <= k < dest.Length ==> dest[k] == old(dest[k])
    {
      dest[destPos + i] := src[srcPos + i];
      i := i + 1;
    }
    ghost var copied, wanted := dest[destPos..destPos + length], src[srcPos..srcPos + length];
    assert forall k :: 0 <= k < |copied| ==> copied[k] == wanted[k];
  }

  /** Fills a fresh response buffer with `data` followed by 90 00, as the
      READ BINARY branch does with its two `arraycopy` calls. */
  method DataResponse(data: seq<byte>, le: nat) returns (apdu: seq<byte>)
    requires |data| == le
    ensures apdu == DataReply(data)
  {
    var responseApdu := new byte[le + |SuccessSw|];
    ArrayCopy(data, 0, responseApdu, 0, le);
    ArrayCopy(SuccessSw, 0, responseApdu, le, |SuccessSw|);
    assert responseApdu[..] == responseApdu[..le] + responseApdu[le..le + 2];
    apdu := responseApdu[..];
  }

  class MyHostApduService {
    /** The NDEF file served after an NDEF SELECT: NLEN, then the message. */
    var ndefRecordFile: array<byte>

    var appSelected: bool
    var ccSelected: bool
    var ndefSelected: bool

    /** The three flags as one value. */
    function Selected(): Selection
      reads this
    {
      Selection(appSelected, ccSelected, ndefSelected)
    }

    ghost predicate Valid()
      reads this
    {
      Consistent(Selected())
    }

    /** The field initialisers: an empty NDEF file and no selection. */
    constructor ()
      ensures Selected() == Idle && Valid()
      ensures fresh(ndefRecordFile) && ndefRecordFile[..] == []
    {
      ndefRecordFile := new byte[0];
      appSelected, ccSelected, ndefSelected := false, false, false;
    }

    /** `onCreate`: clear the flags, then build the NDEF file from the
        serialized NDEF message of the configured URL. */
    method OnCreate(message: seq<byte>)
      modifies this
      ensures Selected() == Idle && Valid()
      ensures fresh(ndefRecordFile) && ndefRecordFile[..] == NdefFile(message)
    {
      ResetState();
      UpdateNdefMessageFromPrefs(message);
    }

    /** `onStartCommand`: rebuild the NDEF file; the flags stay as they are. */
    method OnStartCommand(message: seq<byte>)
      modifies this`ndefRecordFile
      ensures Selected() == old(Selected())
      ensures fresh(ndefRecordFile) && ndefRecordFile[..] == NdefFile(message)
    {
      UpdateNdefMessageFromPrefs(message);
    }

    /** `updateNdefMessageFromPrefs`, given the bytes of the NDEF message: a
        new buffer of `nlen + 2` bytes, the two NLEN bytes written by hand,
        the message copied in after them. */
    method UpdateNdefMessageFromPrefs(message: seq<byte>)
      modifies this`ndefRecordFile
      ensures fresh(ndefRecordFile) && ndefRecordFile[..] == NdefFile(message)
    {
      var nlen := |message|;
      var file := new byte[nlen + 2];
      file[0] := (nlen / 256) % 256;
      file[1] := nlen % 256;
      ArrayCopy(message, 0, file, 2, nlen);
      assert file[..] == file[..2] + file[2..];
      ndefRecordFile := file;
    }

    /** `resetState`: all three flags false; the NDEF file is kept. The new
        state does not depend on the old one, so calling it twice is the same
        as calling it once. */
    method ResetState()
      modifies this`appSelected, this`ccSelected, this`ndefSelected
      ensures Selected() == Idle && Valid()
      ensures ndefRecordFile == old(ndefRecordFile) && ndefRecordFile[..] == old(ndefRecordFile[..])
    {
      appSelected := false;
      ccSelected := false;
      ndefSelected := false;
    }

    /** `onDeactivated`: the reason code is only logged. */
    method OnDeactivated(reason: int)
      modifies this`appSelected, this`ccSelected, this`ndefSelected
      ensures Selected() == Idle && Valid()
      ensures ndefRecordFile == old(ndefRecordFile) && ndefRecordFile[..] == old(ndefRecordFile[..])
    {
      ResetState();
    }

    /** `processCommandApdu`: the reply and the new flags are exactly those
        of `Process`, the NDEF file is untouched, and `Valid` is kept. A null
        array is the absent command. */
    method ProcessCommandApdu(commandApdu: array?<byte>) returns (reply: Reply)
      modifies this`appSelected, this`ccSelected, this`ndefSelected
      ensures Outcome(reply, Selected())
           == Process(old(Selected()), ndefRecordFile[..],
                      if commandApdu == null then None else Some(commandApdu[..]))
      ensures old(Valid()) ==> Valid()
      ensures ndefRecordFile == old(ndefRecordFile) && ndefRecordFile[..] == old(ndefRecordFile[..])
    {
      if commandApdu == null {
        return Respond(FailureSw);
      }
      var isApp := ArraysEquals(SelectAppAid, commandApdu);
      if isApp {
        appSelected := true;
        ccSelected := false;
        ndefSelected := false;
        return Respond(SuccessSw);
      }
      var isCc := false;
      if appSelected {
        isCc := ArraysEquals(SelectCcFile, commandApdu);
      }
      if isCc {
        ccSelected := true;
        ndefSelected := false;
        return Respond(SuccessSw);
      }
      var isNdef := false;
      if appSelected {
        isNdef := ArraysEquals(SelectNdefFile, commandApdu);
      }
      if isNdef {
        ccSelected := false;
        ndefSelected := true;
        return Respond(SuccessSw);
      }
      // `commandApdu[0]`, `[1]` and `[2..4]` are read without a length check.
      if commandApdu.Length < 1 {
        return Crash;
      }
      if commandApdu[0] == 0x00 {
        if commandApdu.Length < 2 {
          return Crash;
        }
        if commandApdu[1] == InsReadBinary {
          if commandApdu.Length < 5 {
            return Crash;
          }
          reply := ServeReadBinary(commandApdu);
          return;
        }
      }
      return Respond(FailureSw);
    }

    /** The READ BINARY branch once the command is known to hold P1, P2 and
        Le: the reply is the one `ReadBinary` prescribes for the current flags
        and NDEF file. The response buffer is filled by `DataResponse`. */
    method ServeReadBinary(commandApdu: array<byte>) returns (reply: Reply)
      requires commandApdu.Length >= 5
      ensures reply == ReadBinary(Selected(), ndefRecordFile[..],
                                  Offset(commandApdu[..]), Le(commandApdu[..]))
    {
      // `(p1 shl 8) or p2`: the low eight bits of the shifted P1 are zero.
      var offset := (commandApdu[2] as int) * 256 + (commandApdu[3] as int);
      var le := commandApdu[4];
      if ccSelected {
        if offset == 0 && le <= |CcFile| {
          var apdu := DataResponse(CcFile[offset..offset + le], le);
          return Respond(apdu);
        }
        return Respond(FailureSw);
      } else if ndefSelected {
        if offset + le <= ndefRecordFile.Length {
          var apdu := DataResponse(ndefRecordFile[offset..offset + le], le);
          return Respond(apdu);
        }
        return Respond(FailureSw);
      }
      return Respond(FailureSw);
    }
  }
}
