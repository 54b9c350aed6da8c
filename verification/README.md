# ICSP device stack: a verified model

The model follows the core of an ICSP client: a device that registers with a master controller, talks to it in
checksummed packets that may be wrapped in RC4-encrypted envelopes, transfers panel files in chunks, and converts
the font references of the received panel pages.

| module | what it models |
|---|---|
| `Bytes`, `AmxDevices` | bytes, unchecked casts, big-endian numbers, NUL-terminated strings, device addresses |
| `Rc4Stream` | RC4 as a pure function: key schedule, keystream, permutations, streaming |
| `Rc4Cipher` | the cipher object with its salt/save/restore discipline, and the streaming transform |
| `Rc4Algorithm` | the stand-alone forms over integer tables, and the agreement of all forms |
| `Packets`, `Envelopes` | the plain packet and the encrypted envelope, as values and as code that fills buffers |
| `Reassembly`, `EndToEnd`, `Clients` | the receive loop, sending, their composition, and the client object |
| `FileTransfers`, `Directories`, `TransferWire` | the file manager, directory listings, and both inside packets |
| `Handshakes`, `Managers` | the device handshake as a state machine, and the manager object that takes its steps |
| `Fonts` | the conversion of (file, size) references into font numbers |
| `DocumentedPackets` | packets that the comments of the repository show, byte for byte |

Conventions. A C# exception is the value `Thrown` (or `Throws`, `Failed`, a `false` result); which exception it is
is not distinguished. A string is its byte sequence in code page 1252, except in `Fonts`. Randomness (salts), the
MD5 hash, GZip, XML loading, the embedded version file, the payloads that a message class can read and the effect of
the message handlers on cipher and mode are parameters, so every statement holds for all of them.
Objects that the source updates in place are classes; each method states its whole effect by a function of the old
state, and the laws are stated about those functions. `hide` statements only keep proofs small.

Where code and documentation differ, the model follows the code:

- Parsing never compares the checksum: a packet with any last byte is handled like the one with the right sum
  (`EndToEnd.AnyChecksumArrives`), and the two-sided law of `Packets.WireParsed` says exactly which packets are
  printed back as they were.
- `RC4Algorithm.Apply` is described as RC4 for any key. With a 256-byte key it reads four key bytes into one integer.
  `Rc4Algorithm.Apply256` says what it then does: it throws for exactly the keys with a negative round, and otherwise
  it is RC4 with every fourth byte of the key. `Rc4Algorithm.TwinKeysDisagree` gives two keys that it confuses.
- An unknown protocol byte drops everything in the buffer, so what is delivered can depend on how the bytes were
  split into reads; `Reassembly.SplittingIndependentIff` says exactly when it does not.
- An exception while a packet is handled ends the read loop without the disconnect handling, so mode and connection
  state stay as they were (`Clients.ICSPClient.ReadAsync`), and the next connection starts in the old mode
  (`Handshakes.ModeAtReconnect`). A payload that its message class cannot read is enough, such as one to three bytes
  in a file transfer message (`TransferWire.TransferAcceptedIff`).
- An identifier in use loses a request: a new or re-created one is not added, and one that a challenge re-keys is
  taken off the index and not put back. `Handshakes.Conservation` counts them.

## Model

| member | source | states |
|---|---|---|
| Bytes.NullStrRoundTrip | ICSP.Core/AmxUtils.cs:50-70 | a NUL-terminated name at any offset is read back, with the offset behind it, if and only if it holds no NUL and does not end in a space |
| Bytes.NullStrTrims | ICSP.Core/AmxUtils.cs:50-70 | spaces between a clean name and its terminator are cut off, and the offset moves behind the terminator |
| Bytes.NullStrUnterminated | ICSP.Core/AmxUtils.cs:50-70 | without a terminator the empty string is read and the offset stays; an offset behind the end throws |
| Bytes.XorAt | ICSP.Core/Cryptography/RC4.cs:143-150 | digit by digit: the exclusive or has a 1 exactly where the operands differ |
| Bytes.SumConcat | ICSP.Core/ICSPMsg.cs:157-166 | the byte sum adds up over any cut of the bytes |
| Bytes.ChecksumChange | ICSP.Core/ICSPMsg.cs:157-166 | changing the byte at any place changes the checksum by exactly that difference, modulo 256 |
| Bytes.Be16Digits | ICSP.Core/Extensions/ArrayExtensions.cs:47-50 | the two bytes are the base-256 digits of the number, the high one first |
| Bytes.GetBe16Digits | ICSP.Core/Extensions/ArrayExtensions.cs:16-20 | two bytes at any place are read as base-256 digits |
| Bytes.Be32Digits | ICSP.Core/Extensions/ArrayExtensions.cs:42-45 | the four bytes are the base-256 digits of the number or of its two's complement |
| Bytes.Be32RoundTrip | ICSP.Core/Extensions/ArrayExtensions.cs:22-45 | the four big-endian bytes of any signed 32-bit integer are read back as that integer |
| AmxDevices.DeviceRoundTrip | ICSP.Core/AmxDevice.cs:16-60 | both six-byte encodings of any address are inverted by their decoders; the four-byte prefix loses only the port, which becomes 1 |
| AmxDevices.BytesRoundTrip | ICSP.Core/AmxDevice.cs:16-60 | any six bytes are re-encoded as they were from the decoded address, in both orders |
| AmxDevices.Layout | ICSP.Core/AmxDevice.cs:16-60 | system, device, port, or device, port, system, each as two base-256 digits |
| AmxDevices.ParsedLayout | ICSP.Core/AmxDevice.cs:16-60 | where each decoder finds system, device and port |
| Rc4Stream.KsaIsPermutation | ICSP.Core/Cryptography/RC4.cs:103-120 | for every non-empty key the schedule leaves each byte value exactly once in the table |
| Rc4Stream.AfterKeepsPermutation | ICSP.Core/Cryptography/RC4.cs:126-137 | any number of unsalted keystream steps keeps the table a permutation |
| Rc4Stream.PermutationIsInjective | ICSP.Core/Cryptography/RC4.cs:103-137 | in a table with each value once, two places never hold the same byte |
| Rc4Stream.OneStep | ICSP.Core/Cryptography/RC4.cs:126-137 | one step of the generator in full: both indices, both swapped entries, and the keystream byte at the sum of the two |
| Rc4Stream.IdentityKeystream | ICSP.Core/Cryptography/RC4.cs:126-137 | the keystream of the identity table begins 2, 5, 7 |
| Rc4Stream.KsaRepeats | ICSP.Core/Cryptography/RC4.cs:103-120 | the key schedule is that of the key repeated to 256 bytes |
| Rc4Stream.CryptConcat | ICSP.Core/Cryptography/RC4.cs:143-150 | encrypting a concatenation is encrypting the parts with the generator carried over |
| Rc4Stream.CryptInvolutive | ICSP.Core/Cryptography/RC4.cs:143-150 | encrypting twice from the same generator state gives the data back |
| Rc4Stream.ChunkedIsOneShot | ICSP.Core/Cryptography/RC4.cs:295-351 | the output of a transform fed in any chunks is the one-shot output |
| Rc4Stream.StreamingRoundTrip | ICSP.Core/Cryptography/RC4.cs:379-398 | plain text cut one way and cipher text cut any other way: a decryptor with the same key recovers the plain text |
| Rc4Cipher.SavedTableNeverChanges | ICSP.Core/Cryptography/RC4.cs:80-94 | no sequence of salted or unsalted calls changes the table that the key schedule saved |
| Rc4Cipher.SaltedCallRestores | ICSP.Core/Cryptography/RC4.cs:88-100 | after any history, scrambled or not, one salted call brings the freshly keyed state back |
| Rc4Cipher.SaltedBlock | ICSP.Core/Cryptography/RC4.cs:152-165 | after any salted history a salted block depends only on key, salt and data, leaves the cipher as it was, and undoes itself |
| Rc4Cipher.UnsaltedByteKeepsTable | ICSP.Core/Cryptography/RC4.cs:152-165 | exactly when one unsalted byte leaves the working table as it was: entry 1 is 1, or names an entry that holds its own index; it never throws |
| Rc4Cipher.SaltedAt | ICSP.Core/Cryptography/RC4.cs:96-100 | the salt replaces the first entries of the table one by one, and no others |
| Rc4Cipher.RC4.SetKey | ICSP.Core/Cryptography/RC4.cs:103-120 | the in-place schedule ends in the scheduled table, saved; an empty key throws with the table reset and nothing saved |
| Rc4Cipher.RC4.TransformBlock | ICSP.Core/Cryptography/RC4.cs:152-165 | in-place encryption refines the pure block for no salt, any salt, and a salt that is too long, with the table restored after a salt |
| Rc4Cipher.Transform.TransformBlock | ICSP.Core/Cryptography/RC4.cs:295-321 | the output region holds the next keystream's encryption and the rest is unchanged; an output that does not fit throws after the keystream has advanced |
| Rc4Cipher.Transform.TransformFinalBlock | ICSP.Core/Cryptography/RC4.cs:330-351 | the result is the next keystream's encryption of the region, or the arguments are refused without effect |
| Rc4Algorithm.VectorIsKeyIff | ICSP.Core/Cryptography/RC4Algorithm.cs:36-52 | the key vector T is the repeated key if and only if the key is not 256 bytes long or all its bytes after the first are zero |
| Rc4Algorithm.ApplyAgrees | ICSP.Core/Cryptography/RC4Algorithm.cs:23-105 | for every key of another length than 256, and the 256-byte keys that are their own vector, Apply gives the bytes of the keyed cipher |
| Rc4Algorithm.Apply256 | ICSP.Core/Cryptography/RC4Algorithm.cs:36-68 | for every 256-byte key: Apply throws if and only if one of the first 64 rounds has a negative remainder, and otherwise encrypts as the cipher keyed by every fourth key byte followed by zeros |
| Rc4Algorithm.Apply256AgreesIff | ICSP.Core/Cryptography/RC4Algorithm.cs:23-105 | with a 256-byte key Apply and SetKey agree on the data if and only if no round is negative and the keystreams of the key and of its reduced form agree on that length |
| Rc4Algorithm.TwinKeysDisagree | ICSP.Core/Cryptography/RC4Algorithm.cs:39-52 | two concrete 256-byte keys under which Apply returns the same bytes for any data, while SetKey encrypts every non-empty data differently |
| Rc4Algorithm.TwinKnownAnswer | ICSP.Core/Cryptography/RC4.cs:103-150 | from a concrete key through its 256 rounds to the keystream: zeros are encrypted as 0, 0, 7, 6 |
| Rc4Algorithm.DirectKnownAnswer | ICSP.Core/Cryptography/RC4Algorithm.cs:107-147 | ApplyDirect on the identity table encrypts zeros as 2, 5, 7 |
| Rc4Algorithm.RemainderIs | ICSP.Core/Cryptography/RC4Algorithm.cs:58-62 | the remainder of a division toward zero: congruent, smaller than the divisor, with the sign of the dividend |
| Rc4Algorithm.Apply256Fails | ICSP.Core/Cryptography/RC4Algorithm.cs:39-68 | every 256-byte key whose first packed integer is negative and not a multiple of 256 makes Apply throw |
| Rc4Algorithm.ApplyKsaKeepsCounts | ICSP.Core/Cryptography/RC4Algorithm.cs:58-68 | whatever the key, a completed schedule permutes the table, so the conversion to a byte cannot overflow |
| Rc4Algorithm.Apply | ICSP.Core/Cryptography/RC4Algorithm.cs:23-105 | the loops over integer tables refine the pure form, including when they throw |
| Rc4Algorithm.ApplyDirect | ICSP.Core/Cryptography/RC4Algorithm.cs:107-147 | generation from a given table, zero-padded, or a throw when it is longer than 256 |
| Rc4Algorithm.ThreeFormsAgree | ICSP.Core/Cryptography/RC4Algorithm.cs:23-105 | the keyed cipher unsalted, the one-shot transform and Apply give the same bytes |
| Rc4Algorithm.SaltedBlockIsApplyDirect | ICSP.Core/Cryptography/RC4Algorithm.cs:107-147 | a salted block equals ApplyDirect on the key table with the salt written over its start |
| Packets.ParseWire | ICSP.Core/ICSPMsg.cs:44-69 | parsing a serialized message gives every field, the length and the checksum back, for any payload that fits, with the flag cut to 16 bits |
| Packets.WireLayout | ICSP.Core/ICSPMsg.cs:97-169 | every field of a packet stands at its offset, as base-256 digits, and the last byte is the sum of the others modulo 256 |
| Packets.ParsedLayout | ICSP.Core/ICSPMsg.cs:44-69 | exactly which bytes are parsed, and from which offsets every field is read |
| Packets.WireParsed | ICSP.Core/ICSPMsg.cs:97-169 | a parsed packet is printed back byte for byte if and only if its length covers it and its last byte is the sum of the bytes before |
| Packets.SerializeParsed | ICSP.Core/ICSPMsg.cs:109-112 | with the identifier rule: the same, and the identifier is non-zero or the counter is about to wrap to zero |
| Packets.LengthOfWire | ICSP.Core/ICSPMsg.cs:99-123 | the length field of a packet that fits is its size minus four |
| Packets.FromDataDispatches | ICSP.Core/MsgFactory.cs:42-56 | the factory accepts exactly what parses with a payload that the constructor of its registered class can read, and dispatches on the parsed command |
| Packets.ICSPMsg.Serialize | ICSP.Core/ICSPMsg.cs:97-169 | filling the buffer in place yields the packet of the fields with the drawn identifier; a payload over 65516 bytes throws |
| Packets.ByteSum | ICSP.Core/ICSPMsg.cs:157-166 | the wrapping loop computes the sum modulo 256 of all bytes but the last |
| Envelopes.BuiltFits | ICSP.Core/ICSPEncryptedMsg.cs:92-119 | enclosing succeeds if and only if the inner packet is at most 65521 bytes (mode 4) or 65525 bytes (other modes) |
| Envelopes.BuiltLayout | ICSP.Core/ICSPEncryptedMsg.cs:92-182 | for any cipher and any inner packet that fits, every field of the envelope stands at its offset, with the salted encryption of the packet and the sum of all bytes before the last |
| Envelopes.ParsedEnvelopeLayout | ICSP.Core/ICSPEncryptedMsg.cs:36-89 | exactly which bytes are parsed as an envelope, and from which offsets, for custom data of any length |
| Envelopes.DecryptedWith | ICSP.Core/ICSPEncryptedMsg.cs:186-195 | an envelope with a salt leaves the cipher with its saved table; one without continues on the working table |
| Envelopes.EnvelopeRoundTrip | ICSP.Core/ICSPEncryptedMsg.cs:36-195 | for both header modes, any salt and any inner packet that fits: parsing recovers source, type, salt, destination, checksum and consistent lengths, decrypting recovers the inner bytes, and the cipher is as before |
| Envelopes.Build | ICSP.Core/ICSPEncryptedMsg.cs:92-182 | the building constructor on arrays and the cipher object refines the pure envelope, including when it throws |
| Envelopes.GetDecryptedData | ICSP.Core/ICSPEncryptedMsg.cs:186-195 | decryption with the envelope's salt, or unsalted when the custom data is too short for one |
| Reassembly.ReceiveAccounts | ICSP.Core/Client/ICSPClient.cs:288-377 | for arbitrary bytes in arbitrary reads: handled bytes in order plus waiting bytes are the received bytes until a failure ends the loop, every packet is cut by its length field, and at most 65538 bytes wait |
| Reassembly.CanStepIff | ICSP.Core/Client/ICSPClient.cs:306-330 | the inner loop goes on exactly for 23 bytes that start with neither 2 nor 4, or hold a packet four bytes longer than its length field |
| Reassembly.UnknownProtocolDropped | ICSP.Core/Client/ICSPClient.cs:313-322 | bytes that start with neither 2 nor 4 are dropped as a whole, and nothing else changes |
| Reassembly.HandledByProtocol | ICSP.Core/Client/ICSPClient.cs:331-370 | what happens to a plain packet, and to an enclosed one without a cipher, malformed, or decrypted |
| Reassembly.HandlersInstall | ICSP.Core/Client/ICSPClient.cs:420-430 | a delivered message leaves the cipher of the key that its handlers install, or the old cipher |
| Reassembly.ChunkingIndependence | ICSP.Core/Client/ICSPClient.cs:288-377 | on any bytes where an unknown protocol drops nothing beyond 23 bytes, any splitting into reads has the effect of one read |
| Reassembly.SplittingIndependentIff | ICSP.Core/Client/ICSPClient.cs:288-377 | for a receiver that waits: every splitting of the bytes has the effect of one read if and only if that one read discards nothing, or discards exactly 23 bytes |
| Reassembly.SameBytesSameEffect | ICSP.Core/Client/ICSPClient.cs:288-377 | two splittings of the same bytes give the same events, cipher state and waiting bytes |
| Reassembly.DiscardDependsOnSplitting | ICSP.Core/Client/ICSPClient.cs:315-322 | a packet that would be delivered is lost behind an unknown protocol in one read, and delivered in two |
| Reassembly.DrainWhole | ICSP.Core/Client/ICSPClient.cs:308-377 | whole packets followed by a strict prefix of another are handled one by one and exactly the prefix waits, or the loop stops after the first that fails |
| EndToEnd.WholePacketsInPieces | ICSP.Core/Client/ICSPClient.cs:288-377 | the same when the bytes arrive in any pieces |
| EndToEnd.AnyChecksumArrives | ICSP.Core/ICSPMsg.cs:44-69 | a packet with any checksum byte is delivered with its fields and that byte, or fails when its payload cannot be read |
| EndToEnd.EncryptedArrives | ICSP.Core/Client/ICSPClient.cs:349-369 | an enclosed packet is taken as whole and handled as its inner message, which fails exactly when its payload cannot be read, with the receiver's cipher as the handlers leave it |
| EndToEnd.EndToEndDelivery | ICSP.Core/Client/ICSPClient.cs:251-378 | any requests within the limits, each plain or encrypted under the current key with any salt, with challenges that change the key, in any splitting: delivered in order with every field equal up to the first payload that cannot be read, where the loop stops; so all are delivered if and only if all can be read |
| EndToEnd.WrittenByMode | ICSP.Core/Client/ICSPClient.cs:251-282 | for any mode, any cipher and any bytes: with digit 2 of the mode set, what is written starts with 4 and decrypts to the request, or nothing is written without a cipher or for more than 65521 bytes; in every other mode the request itself is written |
| Clients.ICSPClient.SendAsync | ICSP.Core/Client/ICSPClient.cs:251-282 | what is appended to the stream for each mode, with nothing written when there is no socket, no cipher or no room |
| Clients.ICSPClient.Preprocess | ICSP.Core/Client/ICSPClient.cs:306-377 | the inner loop over the byte list refines the drain function and terminates, and the mode is what the handlers of the delivered messages made it |
| Clients.ICSPClient.ReadAsync | ICSP.Core/Client/ICSPClient.cs:284-418 | the read loop refines receiving all reads, with handlers that replace the cipher or set the mode on the way; the end of the stream resets mode and socket, a failed packet does not |
| Clients.ICSPClient.OnDataReceived | ICSP.Core/Client/ICSPClient.cs:420-430 | raising a message leaves the cipher that its handlers install, or the old one |
| Clients.LastModeWins | ICSP.Core/Client/ICSPClient.cs:420-430 | the mode is the one set by the handlers of the last message that sets one, or the old one |
| FileTransfers.TransferRoundTrip | ICSP.Core/Manager/ConfigurationManager/MsgCmdFileTransfer.cs:27-61 | a transfer message is decoded from its payload as it was encoded |
| FileTransfers.EncodedLayout | ICSP.Core/Manager/ConfigurationManager/MsgCmdFileTransfer.cs:46-61 | the payload is a zero byte, the file type, the function as base-256 digits, and the data |
| FileTransfers.DecodedLayout | ICSP.Core/Manager/ConfigurationManager/MsgCmdFileTransfer.cs:27-39 | which payloads throw, what an empty one means, and where the others are read |
| FileTransfers.StartSetsName | ICSP.Core/IO/FileManager.cs:252-278 | announcing a file by size, token and any clean name sets exactly that name, empties the buffer, and is answered with 2000 and the token |
| FileTransfers.AccessGranted | ICSP.Core/IO/FileManager.cs:733-788 | asking for a file that is there, by any clean name, makes it the send buffer, and its size and the token are answered |
| FileTransfers.AccessRefused | ICSP.Core/IO/FileManager.cs:733-788 | asking for a file that is not there is answered with error 5 and keeps the send buffer |
| FileTransfers.NextChunkServed | ICSP.Core/IO/FileManager.cs:345-408 | a request or an acknowledgement is answered with the first 2000 bytes left, or all, behind their number |
| FileTransfers.NothingServed | ICSP.Core/IO/FileManager.cs:365-411 | with nothing left, a request is refused with error 5 and an acknowledgement completes the transfer |
| FileTransfers.ChunkTaken | ICSP.Core/IO/FileManager.cs:412-430 | a chunk behind its number of bytes is appended to the buffer, if there is one, and acknowledged |
| FileTransfers.ShortChunkThrows | ICSP.Core/IO/FileManager.cs:412-430 | a chunk shorter than its number says throws and changes nothing |
| FileTransfers.PlainAnswers | ICSP.Core/IO/FileManager.cs:226-486 | the answer, with its bytes, to every function that moves no file data, and the length below which it throws |
| FileTransfers.TooShortThrows | ICSP.Core/IO/FileManager.cs:252-371 | announcements, access requests and data requests that are too short throw and change nothing |
| FileTransfers.UnterminatedNames | ICSP.Core/AmxUtils.cs:50-70 | announcements, access requests and new directories whose name has no terminator act on the empty name |
| FileTransfers.OtherTypesRefused | ICSP.Core/IO/FileManager.cs:131-137 | file types other than 0 and 4 are answered with error 4 |
| FileTransfers.UnusedAnswers | ICSP.Core/IO/FileManager.cs:141-203 | the answer to every function of file type 0 and the length below which it throws |
| FileTransfers.DirectoryCreated | ICSP.Core/IO/FileManager.cs:515-545 | a directory of any clean name is created and acknowledged, an existing one refused with error 16 |
| FileTransfers.StoredIs | ICSP.Core/IO/FileManager.cs:790-919 | what the end of a transfer writes, by extension, first two bytes, and the result of unpacking and loading |
| FileTransfers.ExtensionIs | ICSP.Core/IO/FileManager.cs:799-799 | the extension of a name is its last dot with what follows, whatever stands before |
| FileTransfers.NoExtension | ICSP.Core/IO/FileManager.cs:799-799 | a last path segment without a dot, and a name that ends in a dot, have no extension |
| FileTransfers.EndAcknowledged | ICSP.Core/IO/FileManager.cs:790-798 | the end of a transfer is always acknowledged and touches nothing but files, and those only with a name and a buffer |
| FileTransfers.TransferSafety | ICSP.Core/IO/FileManager.cs:226-486 | after any messages: bytes sent since the last open plus bytes waiting are that file, the receive buffer is what arrived since the last start; the next answer is a chunk of 1 to 2000 bytes, or completion only when all was sent |
| FileTransfers.RunConserves | ICSP.Core/IO/FileManager.cs:226-486 | the conservation law is kept by every sequence of incoming messages of any type |
| FileTransfers.AllChunksCross | ICSP.Core/IO/FileManager.cs:345-443 | from any point of a transfer the rest crosses in ceil(rest / 2000) data messages and two peers come to rest after a stated number of steps |
| FileTransfers.TwoPartyTransfer | ICSP.Core/IO/FileManager.cs:313-450 | an exchange between any two managers, whatever is asked for, comes to rest; a non-empty file crosses in exactly ceil(n / 2000) data messages and is appended and stored, an empty one ends in a Nak |
| FileTransfers.TransferReproducesFile | ICSP.Core/IO/FileManager.cs:252-278 | a client that is sent the announcement of a file, and then the file by any server that has it, ends with exactly the file in its buffer after ceil(n / 2000) data messages, and under the announced name unless its extension is converted |
| FileTransfers.MissingFileRefused | ICSP.Core/IO/FileManager.cs:773-774 | a missing file ends the exchange with one Nak, a request too short to read with nothing; the client is untouched either way |
| FileTransfers.QuietStays | ICSP.Core/IO/FileManager.cs:445-450 | once no message is under way nothing changes any more |
| FileTransfers.FileManager.ProcessFileTransferDisk | ICSP.Core/IO/FileManager.cs:226-486 | the handler on the object's fields takes the step of the pure model, with the exceptions of short data |
| FileTransfers.FileManager.TransferFileDataComplete | ICSP.Core/IO/FileManager.cs:790-919 | which bytes are written under which extension, magic number and conversion result, and that the answer is always the same |
| FileTransfers.FileManager.TransferGetFileAccessToken | ICSP.Core/IO/FileManager.cs:733-788 | opening replaces the send buffer only when the file is there, and creates the version file on first request |
| FileTransfers.FileManager.GetResponse | ICSP.Core/IO/FileManager.cs:131-224 | dispatch on the file type, with directory creation and the refusal of unsupported types; the answer to a listing request is empty |
| Directories.EntryName | ICSP.Core/IO/FileManager.cs:173-182 | an entry gives its name back if and only if the name is free of NUL and trailing space |
| Directories.HeaderPath | ICSP.Core/IO/FileManager.cs:163-172 | the same for the path in the header |
| Directories.EntryLayout | ICSP.Core/IO/FileManager.cs:629-654 | type, count, number, size and time stamp stand at their offsets and are read back from there |
| Directories.NumberedIff | ICSP.Core/IO/FileManager.cs:616-625 | entries are numbered 1 to n of n if and only if there are 1 to 65535 items |
| Directories.ListingRoundTrip | ICSP.Core/IO/FileManager.cs:574-659 | decoding a listing recovers the path and all names in order; an empty directory lists one entry 0 of 0 named "?" |
| Directories.GetDirectoryInfo | ICSP.Core/IO/FileManager.cs:574-659 | the sending loop with its wrapping counter emits the header and exactly those entries, or only the header of a directory that cannot be read |
| Directories.ListingRequestRoundTrip | ICSP.Core/IO/FileManager.cs:131-182 | whoever asks for a listing by a clean path and decodes everything that is sent has the full path and all names in order; of a directory that cannot be read, only the path |
| Directories.UnnamedListing | ICSP.Core/IO/FileManager.cs:153-162 | a listing request without a terminator is for the empty path, and one that is too short sends nothing |
| Directories.ProcessMessage | ICSP.Core/IO/FileManager.cs:123-129 | handling a message on the manager sends the listing it asks for and then the answer, and takes the step of the pure model |
| TransferWire.AnswersAreSmall | ICSP.Core/IO/FileManager.cs:131-486 | whatever message comes in, the answer's data is at most 2002 bytes |
| TransferWire.ExchangeIsSmall | ICSP.Core/IO/FileManager.cs:226-486 | so every message of an exchange between two managers is |
| TransferWire.TransferAcceptedIff | ICSP.Core/Manager/ConfigurationManager/MsgCmdFileTransfer.cs:27-39 | the file transfer class reads a payload if and only if it is empty or at least four bytes long |
| TransferWire.TransfersArrive | ICSP.Core/Manager/ConfigurationManager/MsgCmdFileTransfer.cs:27-61 | such messages, plain or encrypted and in any pieces, are accepted by their class and decoded by the receiver as they were sent, in order, whatever other classes are registered |
| Handshakes.PendingIndex | ICSP.Core/ICSPManager.cs:297-347 | in every reachable state a pending key is the current id of its request, no request has two keys, pending requests wait, and none is Disconnected |
| Handshakes.RunValid | ICSP.Core/ICSPManager.cs:266-575 | the whole invariant of the pending index, the caches and the identifiers holds in every reachable state |
| Handshakes.ExpiryOnlyForgets | ICSP.Core/ICSPManager.cs:577-622 | in reachable states an expiring cache entry never takes a device offline |
| Handshakes.CreateEffect | ICSP.Core/ICSPManager.cs:677-710 | the whole effect of a call: the next identifier, the new request on both indices, the system of its device |
| Handshakes.AckEffect | ICSP.Core/ICSPManager.cs:288-326 | the whole effect of an acknowledgement, answered or not |
| Handshakes.ChallengeAckEffect | ICSP.Core/ICSPManager.cs:327-360 | the whole effect of an unknown, a rejecting and an authenticating answer; the latter registers the same device as a call does |
| Handshakes.ChallengeRequestEffect | ICSP.Core/ICSPManager.cs:519-552 | the whole effect of a challenge, with and without a pending request |
| Handshakes.PingEffect | ICSP.Core/ICSPManager.cs:372-395 | the whole effect of a ping, for a device that is online or not, and of its cache entry expiring |
| Handshakes.DeviceInfoEffect | ICSP.Core/ICSPManager.cs:465-480 | the whole effect of a device info, and of messages that only draw an identifier |
| Handshakes.LinkEffects | ICSP.Core/ICSPManager.cs:242-264 | the whole effect of a reported loss, and none of a new link or a failed read loop |
| Handshakes.ExpireEffect | ICSP.Core/ICSPManager.cs:577-622 | the whole effect of an expiring request, in each of its states |
| Handshakes.NothingYet | ICSP.Core/ICSPManager.cs:519-552 | before any event there is no mode, no cipher, no identifier drawn, and nothing in any table |
| Handshakes.StatusBits | ICSP.Core/ICSPManager.cs:336-338 | digit 0 of the status authenticates, digits 1 and 2 become the mode, and digit 2 of a mode is for sending |
| Handshakes.Conservation | ICSP.Core/ICSPManager.cs:288-360 | on every run: requests made = acknowledged + rejected + lost to an identifier in use + still pending, a re-created request counting once |
| Handshakes.IdsDistinct | ICSP.Core/ICSPMsg.cs:109-112 | any 65536 consecutive identifiers are distinct |
| Handshakes.WindowTheorem | ICSP.Core/ICSPManager.cs:697-705 | while no pending entry outlives a round of the counter, nothing is lost and every cached request is pending |
| Handshakes.DevicesAreOnline | ICSP.Core/ICSPManager.cs:242-264 | in every reachable state the device table holds exactly the devices acknowledged since the last link loss that was reported |
| Handshakes.DevicesKeepFirst | ICSP.Core/ICSPManager.cs:288-326 | in every reachable state each device acknowledged since the last reported loss is recorded with the info object whose request was acknowledged first |
| Handshakes.SystemsAreLast | ICSP.Core/ICSPManager.cs:288-360 | in every reachable state each known device info has the system of the last call, answered acknowledgement or answered authentication for it |
| Handshakes.CurrentSystemIsFirst | ICSP.Core/ICSPManager.cs:288-296 | in every reachable state the current system is the first non-zero system seen since the last reported loss, or 0 |
| Handshakes.UnsafeIff | ICSP.Core/ICSPManager.cs:336-338 | one step: a state in which encrypted sending has a cipher is left exactly by an authentication for RC4 sending that comes before any challenge |
| Handshakes.SafetyIff | ICSP.Core/ICSPManager.cs:327-347 | on any run: encrypted sending has a cipher in every state if and only if every answer that switches it on comes after a challenge |
| Handshakes.CryptoIffChallenged | ICSP.Core/ICSPManager.cs:519-552 | the cipher is there if and only if some challenge was received |
| Handshakes.ModeSafety | ICSP.Core/ICSPManager.cs:535-549 | if the master authenticates only after challenging, RC4 sending has a cipher in every state of the run, across any link losses |
| Handshakes.UnchallengedAckIsUnsafe | ICSP.Core/ICSPManager.cs:327-360 | two messages of a master that does not challenge first switch encryption on without a cipher |
| Handshakes.ModeNoneAfterLoss | ICSP.Core/Client/ICSPClient.cs:409-418 | after a link loss that the read loop reports, the mode stays None through any events until the next authentication |
| Handshakes.ModeAtReconnect | ICSP.Core/Client/ICSPClient.cs:294-407 | the next connection starts in mode None if and only if the loss was reported or the mode was None; after a read loop that failed it starts in the old mode |
| Handshakes.PortLoopEndsIff | ICSP.Core/ICSPManager.cs:738-755 | the unsigned port loop ends if and only if there are fewer than 65535 ports, and then after one round per port |
| Managers.ICSPManager.CreateDeviceInfoAsync | ICSP.Core/ICSPManager.cs:677-710 | the call registers a new request object under the next identifier, on both indices, unless the identifier is in use |
| Managers.ICSPManager.OnAck | ICSP.Core/ICSPManager.cs:288-326 | the handler retires the request object and adds its device, as one step of the state machine |
| Managers.ICSPManager.OnChallengeAck | ICSP.Core/ICSPManager.cs:327-360 | the handler retires the request, and on authentication sets the mode and registers a replacement for the same device |
| Managers.AuthenticatedSendsEncrypted | ICSP.Core/ICSPManager.cs:336-338 | an authentication for RC4 sending leads to a mode in which every request that fits is written as an envelope that the client's cipher opens |
| Managers.ICSPManager.OnChallengeRequest | ICSP.Core/ICSPManager.cs:519-552 | the handler installs a cipher keyed by the hash and moves the pending request object to the response's identifier |
| Managers.ICSPManager.OnLinkDown | ICSP.Core/ICSPManager.cs:242-264 | the link loss empties devices and caches and resets system and mode, and leaves pending requests alone |
| Managers.ICSPManager.OnExpired | ICSP.Core/ICSPManager.cs:577-622 | the removal callback as one step of the state machine |
| Managers.ICSPManager.ReportedPorts | ICSP.Core/ICSPManager.cs:738-755 | followed for any number of rounds, the loop visits the ports in order, is done after one round per port, and never for 65535 ports, which wrap around |
| Fonts.MeaningPreservedIff | ICSP.WebProxy/WebControl/FileTransferPostProcessor.cs:748-803 | for any table, with the number counter wrapping around: a converted reference resolves in the final dictionary to its file and size if and only if the old table did not hide that font, or the number it was added under, behind an earlier entry of the same number |
| Fonts.MeaningPreserved | ICSP.WebProxy/WebControl/FileTransferPostProcessor.cs:748-803 | from a table with distinct positive numbers every reference resolves to its file (or arial.ttf) and size; other references and old entries stay, numbers stay distinct, and they stay positive if and only if the counter does not pass the largest 32-bit integer |
| Fonts.FontsResolved | ICSP.WebProxy/WebControl/FileTransferPostProcessor.cs:748-803 | the same field by field: a reference by file and size becomes one by number alone, and the first entry of that number has its file, or arial.ttf, and its size |
| Fonts.AddedFullNames | ICSP.WebProxy/WebControl/FileTransferPostProcessor.cs:773-791 | every added entry has a file and the full name of that file |
| Fonts.FullNameIs | ICSP.WebProxy/WebControl/FileTransferPostProcessor.cs:773-776 | the full name is that of the first G5 font of the file, if it has one, and else the file without ".ttf" |
| Fonts.StripFirst | ICSP.WebProxy/WebControl/FileTransferPostProcessor.cs:776-776 | the first ".ttf" is cut out and the rest goes on behind it |
| Fonts.StripNothing | ICSP.WebProxy/WebControl/FileTransferPostProcessor.cs:776-776 | a name without ".ttf" stays |
| Fonts.OneEntryPerMissingPair | ICSP.WebProxy/WebControl/FileTransferPostProcessor.cs:767-793 | exactly one entry is added for each distinct missing pair of file and size |
| Fonts.FoundOnceProcessed | ICSP.WebProxy/WebControl/FileTransferPostProcessor.cs:767-793 | the font of a processed reference is in the table and stays the one that a lookup finds |
| Fonts.JsonConvertG5ButtonFonts | ICSP.WebProxy/WebControl/FileTransferPostProcessor.cs:748-803 | the loop over shared state objects ends in the tabulated table and references; an empty table throws before any change |
| Fonts.FillFontTable | ICSP.WebProxy/WebControl/FileTransferPostProcessor.cs:726-728 | the dictionary keeps for every number the first font of the list |
| DocumentedPackets.AckPacket | ICSP.Core/ICSPManager.cs:685-685 | the bytes of an acknowledgement, with its checksum 69 |
| DocumentedPackets.SingleFileAnswered | ICSP.Core/IO/FileManager.cs:235-236 | bytes in, bytes out: the documented offer of a file is answered with the documented bytes, whatever the state of the manager |
| DocumentedPackets.ListingHeader | ICSP.Core/IO/FileManager.cs:549-549 | the fixed bytes before the path |
| DocumentedPackets.DirectoryEntry | ICSP.Core/IO/FileManager.cs:553-553 | the bytes of a directory as entry 1 of 3 |
| DocumentedPackets.EmptyDirectoryEntry | ICSP.Core/IO/FileManager.cs:561-561 | the bytes that an empty directory lists |
| DocumentedPackets.EnvelopeParsed | ICSP.Core/ICSPEncryptedMsg.cs:60-60 | the fields of an envelope from its bytes |

## Left out

- Rc4Algorithm.TwinKeysDisagree: shows that one of the two keys is encrypted differently, without computing which; that would take the 256 rounds of one concrete schedule.
- Managers.ICSPManager.ReportedPorts: the messages sent for each port are not modelled.
- Clients.ICSPClient.ReadAsync: the effect of the handlers on cipher and mode is a function of the messages received; other threads that change them meanwhile are not modelled.
- Fonts.MeaningPreservedIff: asks for less than 2^32 references, so that the wrapping counter does not come round; a C# list cannot grow that far.
- Fonts.MeaningPreserved: asks for less than 2^31 references, for the same reason.
- Handshakes.WindowTheorem: that no pending entry outlives a round of the counter is a condition on the run; the code has no timer that removes pending entries.
- Sockets, timeouts, DNS, logging and the scheduling of tasks: a read is a byte sequence, a send an append, and a handler's work before its first await is one step.
- What handlers send after their first await, except that it may draw identifiers.
- The fields of the concrete message classes and the reflection that fills the factory: a class is the set of payloads that its constructor can read, known in detail only for file transfers, and messages carry their packet.
- MD5, GZip, XML loading, and code page 1252 beyond being one byte per character.
- The file system beyond a map from names to bytes, a set of directories, and listings that can fail; its other failures; base directory joins; file sizes and time stamps of a listing are inputs.
- The unsalted use of the cipher's own table as a key (CreateEncryptor without arguments) and key generation.
- The process-wide sharing of the memory cache and threads inside one cipher object.
- The system address property that always follows the current system number, and the remaining message kinds of the manager, which do not touch the modelled state.
- The state manager, the dialogs, the web controllers, the JSON and XML conversions and the proxy wiring.
