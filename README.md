# Portfolio Share: the NFC Type 4 Tag responder

The Android app shares one URL over NFC. Its service `MyHostApduService`
answers the command APDUs of a reader the way an NFC Forum Type 4 Tag
(mapping version 2.0) does:

- SELECT of the NDEF Tag Application by AID;
- SELECT of the Capability Container (file E103) and of the NDEF file (E104);
- READ BINARY of either file.

The NDEF file is a two-byte big-endian NLEN followed by the serialized NDEF
message of the configured URL.

The model has five modules:

- `Bytes` (`bytes.dfy`): the byte type (unsigned 0..255, the reading the
  service uses after every `and 0xFF`) and an `Option`.
- `Type4Tag` (`type4_tag.dfy`): the constant APDUs, the Capability Container,
  and the NDEF file framing. `Process` is the meaning of one
  `processCommandApdu` call as a function of the three selection flags, the
  cached NDEF file and the command bytes. Its reply is `Respond(apdu)` or
  `Crash`. `Crash` is the array-index exception that the unchecked
  `commandApdu[i]` reads raise on short commands. The module also holds the
  lemmas about the responder.
- `HostApdu` (`host_apdu_service.dfy`): the service as a class. It has the
  three flags and the NDEF file as an `array`. Its methods update them in
  place and are proved to compute exactly `Process` and `NdefFile`. It also
  has the `Arrays.equals` loop and the `System.arraycopy` loop.
- `Reader` (`reader.dfy`): the command sequence a Type 4 Tag reader sends
  against `Process`. The reader selects the application, reads the CC, selects
  the file the CC names, reads NLEN, checks it against the CC's maximum NDEF
  size, then reads the message in chunks of the CC's MLe. It is used to state the end-to-end property: a reader recovers the
  message the service was built from.
- `Hex` (`hex.dfy`): `toHex` and `hexToByteArray`, with their round trip.

The model follows the code as written:

- Every failure is `6A 82`, as the comment at
  `MyHostApduService.kt:176-179` says. There is no `6F 00`, `6D 00` or other
  status word.
- SELECT is recognised only by equality of the whole command array. The
  AID SELECT must be exactly 13 bytes, with its trailing Le 00.
- The NDEF file is rebuilt in `onCreate` and `onStartCommand`, not on the
  AID SELECT.
- A short command is an exception, not a status word. This covers an empty
  command, the lone byte 00, and `00 B0` with fewer than five bytes. Kotlin's
  `&&` short-circuits, so a one-byte command whose CLA is not 00 gets `6A 82`.

## Model

| member | source | states |
|---|---|---|
| Type4Tag.Process | app/src/main/java/com/pranshu/portfolioshare/MyHostApduService.kt:115-181 | one call keeps the selection invariant (no two files selected, a selected file implies the selected application); the flags change only on a reply of exactly 90 00; an exception leaves the flags as they were |
| Type4Tag.DataReply | app/src/main/java/com/pranshu/portfolioshare/MyHostApduService.kt:150-156 | the response buffer has Le + 2 bytes: the requested data, then 90 00 |
| Type4Tag.SelectAppAlwaysSucceeds | app/src/main/java/com/pranshu/portfolioshare/MyHostApduService.kt:121-127 | the exact AID SELECT answers 90 00 from every state and leaves the application selected and neither file selected |
| Type4Tag.SelectFileNeedsApp | app/src/main/java/com/pranshu/portfolioshare/MyHostApduService.kt:128-139 | a CC or NDEF file SELECT succeeds exactly when the application is selected, selecting that file and deselecting the other; otherwise 6A 82 and no change |
| Type4Tag.ProcessReadBinary | app/src/main/java/com/pranshu/portfolioshare/MyHostApduService.kt:140-145 | a command with CLA 00, INS B0 and at least five bytes reaches READ BINARY in every state, reads the offset big-endian from P1 P2 and Le from byte 4, and keeps the flags |
| Type4Tag.ReadCcFile | app/src/main/java/com/pranshu/portfolioshare/MyHostApduService.kt:152-162 | with the CC selected, READ BINARY succeeds if and only if the offset is 0 and Le is at most 15; the reply is then the first Le CC bytes and 90 00 (Le + 2 bytes), otherwise 6A 82 |
| Type4Tag.ReadNdefFile | app/src/main/java/com/pranshu/portfolioshare/MyHostApduService.kt:163-172 | with the NDEF file selected, READ BINARY succeeds if and only if offset + Le fits in the file; the reply is then that slice and 90 00, otherwise 6A 82 |
| Type4Tag.FailureCases | app/src/main/java/com/pranshu/portfolioshare/MyHostApduService.kt:116-180 | a null command, READ BINARY with nothing selected, a CLA other than 00, and any other command that is not an accepted SELECT all get exactly 6A 82 with the flags unchanged |
| Type4Tag.CrashExactly | app/src/main/java/com/pranshu/portfolioshare/MyHostApduService.kt:140-145 | the call throws if and only if the command is empty, is the single byte 00, or is a READ BINARY header shorter than five bytes |
| Type4Tag.ResponseEndsInStatusWord | app/src/main/java/com/pranshu/portfolioshare/MyHostApduService.kt:39-47 | every response is 6A 82 or ends in 90 00 |
| Type4Tag.RunKeepsConsistent | app/src/main/java/com/pranshu/portfolioshare/MyHostApduService.kt:124-138 | no sequence of commands, answered until the first exception ends the service, leads from a consistent selection to an inconsistent one |
| Type4Tag.IdleUntilAppSelect | app/src/main/java/com/pranshu/portfolioshare/MyHostApduService.kt:128-139 | after a reset, any command sequence without the AID SELECT leaves every flag false |
| Type4Tag.NdefFile | app/src/main/java/com/pranshu/portfolioshare/MyHostApduService.kt:103-107 | the NDEF file is two bytes longer than the message; its first two bytes read big-endian give the message length modulo 65536; the rest is the message |
| Type4Tag.NlenBytes | app/src/main/java/com/pranshu/portfolioshare/MyHostApduService.kt:105-106 | the shifted-and-masked high byte and the masked low byte together spell the length modulo 65536 |
| Type4Tag.NdefFileRoundTrip | app/src/main/java/com/pranshu/portfolioshare/MyHostApduService.kt:103-107 | for a message of at most 65535 bytes, reading NLEN and then NLEN bytes from the file gives back the message |
| Type4Tag.NdefFileNlenWraps | app/src/main/java/com/pranshu/portfolioshare/MyHostApduService.kt:103-107 | for a longer message, NLEN wraps and a reader recovers only the first length-mod-65536 bytes |
| Type4Tag.CapabilityContainerFields | app/src/main/java/com/pranshu/portfolioshare/MyHostApduService.kt:52-62 | the CC's CCLEN equals its 15 bytes, the mapping version is 2.0, its File Control TLV (04 06) names the file that the NDEF SELECT selects, read access is granted and write access denied |
| Reader.ReadCommand | app/src/main/java/com/pranshu/portfolioshare/MyHostApduService.kt:144-145 | the five-byte READ BINARY a reader builds for a 16-bit offset is decoded by the service into the same offset and Le |
| Reader.DataOf | app/src/main/java/com/pranshu/portfolioshare/MyHostApduService.kt:155-171 | the data a reader takes from a reply is exactly the reply without its trailing 90 00, and a 6A 82 reply never yields data |
| Reader.ReadOneChunkNdef | app/src/main/java/com/pranshu/portfolioshare/MyHostApduService.kt:163-172 | one READ BINARY on the selected NDEF file keeps the flags and yields exactly the requested slice when it lies inside the file, nothing otherwise |
| Reader.NdefSelectedServesFile | app/src/main/java/com/pranshu/portfolioshare/MyHostApduService.kt:163-172 | with the NDEF file selected, the service serves every slice of that file in this way |
| Reader.ReadChunksOfSlices | app/src/main/java/com/pranshu/portfolioshare/MyHostApduService.kt:163-172 | reading a range in chunks from a service that serves slices returns exactly that range when it lies inside the file, and fails otherwise |
| Reader.DiscoverCcFromAnyState | app/src/main/java/com/pranshu/portfolioshare/MyHostApduService.kt:121-162 | from any state, AID SELECT, CC SELECT and a 15-byte read return the whole CC and leave the CC selected |
| Reader.OpenNdefFileNamedByCc | app/src/main/java/com/pranshu/portfolioshare/MyHostApduService.kt:134-172 | selecting the file the CC names and reading two bytes returns NLEN and leaves the NDEF file selected |
| Reader.ReaderRecoversMessage | app/src/main/java/com/pranshu/portfolioshare/MyHostApduService.kt:52-173 | from any state, a reader that takes MLe, the file identifier and the maximum NDEF size from the CC recovers exactly the message the NDEF file was built from, for every message of at most 253 bytes (NLEN plus message within the CC's maximum of 255) |
| Reader.ReaderRefusesOversizedMessage | app/src/main/java/com/pranshu/portfolioshare/MyHostApduService.kt:59 | for a message of 254 to 65535 bytes NLEN exceeds the CC's maximum size less two, so that reader returns nothing, although the service serves every slice of such a file (`NdefSelectedServesFile`, `ReadChunksOfSlices`): the service builds files larger than its own CC allows |
| HostApdu.ArraysEquals | app/src/main/java/com/pranshu/portfolioshare/MyHostApduService.kt:121 | the element loop answers true exactly when the command has the expected length and bytes |
| HostApdu.ArrayCopy | app/src/main/java/com/pranshu/portfolioshare/MyHostApduService.kt:107 | the copy puts the source range at the destination offset and leaves every other destination byte unchanged |
| HostApdu.DataResponse | app/src/main/java/com/pranshu/portfolioshare/MyHostApduService.kt:150-158 | the freshly filled buffer is the data followed by 90 00 |
| HostApdu.MyHostApduService.constructor | app/src/main/java/com/pranshu/portfolioshare/MyHostApduService.kt:66-71 | a new service has an empty NDEF file and no selection |
| HostApdu.MyHostApduService.OnCreate | app/src/main/java/com/pranshu/portfolioshare/MyHostApduService.kt:73-81 | after creation nothing is selected and the NDEF file is the framing of the message |
| HostApdu.MyHostApduService.OnStartCommand | app/src/main/java/com/pranshu/portfolioshare/MyHostApduService.kt:83-88 | a start command rebuilds the NDEF file from the message and keeps the flags |
| HostApdu.MyHostApduService.UpdateNdefMessageFromPrefs | app/src/main/java/com/pranshu/portfolioshare/MyHostApduService.kt:93-109 | the new buffer, filled byte by byte and by arraycopy, is exactly the framed NDEF file |
| HostApdu.MyHostApduService.ResetState | app/src/main/java/com/pranshu/portfolioshare/MyHostApduService.kt:192-197 | every flag is false afterwards, whatever it was before, so a second reset changes nothing; the NDEF file is kept |
| HostApdu.MyHostApduService.OnDeactivated | app/src/main/java/com/pranshu/portfolioshare/MyHostApduService.kt:187-190 | deactivation resets the flags and keeps the NDEF file |
| HostApdu.MyHostApduService.ProcessCommandApdu | app/src/main/java/com/pranshu/portfolioshare/MyHostApduService.kt:115-181 | the reply and the new flags are exactly those `Process` prescribes, the selection invariant is kept, and the NDEF file is unchanged |
| HostApdu.MyHostApduService.ServeReadBinary | app/src/main/java/com/pranshu/portfolioshare/MyHostApduService.kt:144-173 | the READ BINARY branch answers as the CC-first, then-NDEF bounds checks prescribe |
| Hex.ByteToHex | app/src/main/java/com/pranshu/portfolioshare/MyHostApduService.kt:205 | a byte renders as two upper-case hexadecimal digits |
| Hex.ToHex | app/src/main/java/com/pranshu/portfolioshare/MyHostApduService.kt:204-206 | the rendering has two characters per byte, all upper-case hexadecimal digits |
| Hex.PairRoundTrip | app/src/main/java/com/pranshu/portfolioshare/MyHostApduService.kt:205-217 | the two digits of a byte parse back to that byte |
| Hex.ParseHexPairwise | app/src/main/java/com/pranshu/portfolioshare/MyHostApduService.kt:213-220 | parsing succeeds exactly on strings of even length whose every pair parses, and byte j of the result is the value of pair j |
| Hex.HexRoundTrip | app/src/main/java/com/pranshu/portfolioshare/MyHostApduService.kt:204-220 | parsing the hexadecimal rendering of any bytes gives those bytes back |
| Hex.HexToByteArray | app/src/main/java/com/pranshu/portfolioshare/MyHostApduService.kt:213-220 | the stepping loop returns an array exactly when the string parses pair by pair, and then holds the pairs' values; an odd length or a bad pair is the exception |

## Left out

- `MainActivity` and its preferences UI are not part of this model.
- `NdefRecord.createUri` and `NdefMessage.toByteArray` are Android library
  code. The serialized message is an input byte sequence `message`. The two
  `toByteArray()` calls are taken to return the same bytes.
- SharedPreferences and the default URL are external state. They are left out
  together with the URL.
- Logging is left out. The only other use of `toHex` is a log line, so `toHex`
  is modelled as a function on its own.
- The `extras` bundle is ignored by the service and by the model.
- `onStartCommand`'s return value comes from the Android superclass and is not
  modelled.
- `super.onCreate()` is not modelled.
- The order of `prefs` initialisation is not modelled.
- `OnCreate`, `OnStartCommand`, `UpdateNdefMessageFromPrefs`: they take the
  message bytes as a parameter rather than reading the URL from preferences.
- `ServeReadBinary` allocates the response buffer only on the success path.
  The service allocates it before the flag checks. Nothing observable depends
  on this.
- `ParsePair` and `HexToByteArray` accept only ASCII hexadecimal digits.
  `String.toInt(16)` also accepts the other Unicode digits that
  `Character.digit` knows. The leading `+`/`-` sign it takes is modelled.
- Sizes are unbounded in the model. A JVM array is limited to 2^31 - 1
  elements; no operation here comes near that bound, except that a message
  longer than 65535 bytes makes NLEN wrap, which `NdefFileNlenWraps` states.
- The Capability Container advertises MLe 59 and a maximum NDEF size of 255.
  The service enforces neither: READ BINARY accepts any Le up to 255 and the
  file may be longer than 255 bytes. The model keeps that behaviour;
  `ReaderRefusesOversizedMessage` states what a reader that honours the
  maximum then does.
- `ReaderRecoversMessage` is limited to messages of at most 253 bytes, the
  CC's maximum NDEF size of 255 less NLEN. `ReaderRefusesOversizedMessage`
  covers 254 to 65535 bytes; beyond that NLEN wraps, as `NdefFileNlenWraps`
  states.
- `Run` stops at the first exception. The exception from
  `processCommandApdu` is not caught, so it ends the service process. The
  commands that follow reach a new service instance (flags cleared and the
  NDEF file rebuilt by `onCreate`). That restart belongs to the Android
  framework, which is not part of this model.
