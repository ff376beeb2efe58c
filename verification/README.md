# A verified model of the LoRaWAN network server's algorithms

This project models, in Dafny, the algorithms of a LoRaWAN network server with a USB gateway that work on
bytes, bits, counters and streams, and proves what they promise. `dafny verify dfyconfig.toml` checks it.

| file | models |
|---|---|
| `Crc16.dfy` | the two CRC-16 loops as division of polynomials over GF(2) |
| `MacCommands.dfy`, `MacStream.dfy`, `MacRecords.dfy` | the MAC command tables, the two loops that cut FOpts into commands, and the records the commands carry (section 5 of the LoRaWAN specification) |
| `DevAddr.dfy`, `FieldWrites.dfy`, `AddressSteps.dfy`, `NetworkBlocks.dfy`, `DeviceAddress.dfy` | device addresses: fields and what writing one does to the others, successor and predecessor, the block of a network (chapter 13 of LoRaWAN Backend Interfaces 1.0) |
| `LeapSeconds.dfy` | GPS and UTC time with leap seconds |
| `PayloadCipher.dfy`, `MessageStorage.dfy` | payload encryption in counter mode (section 4.3.3 of the LoRaWAN 1.1 specification) and the frame in memory |
| `NmeaSentence.dfy`, `GpsFraming.dfy`, `GpsStream.dfy`, `GpsLoss.dfy` | NMEA checksums, UBX and NMEA frames in the GPS byte stream, the 128-byte buffer, and which frames it loses |
| `XtalCorrection.dfy`, `BeaconSchedule.dfy`, `TxGain.dfy` | crystal correction with its two threads, beacon scheduler, transmit power |
| `Bytes.dfy`, `TextCodec.dfy`, `ValueText.dfy` | byte strings; numbers, keys, versions and names as text, with the C library functions they rest on |
| `FilterText.dfy`, `FilterValues.dfy`, `FilterMatch.dfy`, `FilterQuery.dfy` | filter expressions: printing, the tokenising parser, evaluation, and which devices a query text selects |
| `IdentityRecord.dfy` | the comma-separated identity record |

How the source's form is kept: loops are methods with invariants, objects that change are classes, and each is
proved against a function or predicate about which the lemmas speak. Words of CRC registers are bit strings,
device addresses are `bv32`, bytes elsewhere are integers below 256. Doubles are real numbers, and a division by
zero gives a value that is not finite. Times are unbounded except where the code truncates to 32 bits. AES, the
answers of the transmit queue and the GPS samples are parameters over which every statement quantifies. The host is little-endian, `long` has 64 bits, and `char` texts are in the C locale.

Where code and documentation differ, the model follows the code:

- Address type 5: the masks clear or keep two bits of the network identifier too many, so identifiers survive only
  under a condition on these bits (`FieldWrites.FieldRoundTrip10`, `FieldWrites.SetIdAlone10`,
  `FieldWrites.SetAddrAlone10`).
- Address types 3 and 4, layout 1.1: the identifier setters shift one bit too far, and the type 4 getter takes a bit
  from the wrong byte; `FieldWrites.FieldRoundTrip11`, `FieldWrites.SetIdAlone11` and `FieldWrites.SetAddrAlone11` state
  exactly which fields survive which write.
- A payload of more than 256 bytes: the 8-bit index wraps and the rest stays in clear (`PayloadCipher.TailInClear`,
  `PayloadCipher.CounterModeIffShort`). The size is cut to a signed 32-bit number (`PayloadCipher.EncryptPayload`).
- The comment at the direction byte of the cipher has uplink and downlink exchanged; uplink is 0.
- The host byte order conversion in `decode` does nothing, as the size it compares is never too small.
- The copied list for traffic sent by the gateway adds up the sizes the commands would have in the other direction;
  `MacStream.GatewayList`, `MacStream.SumsAgree` and `MacStream.TextIffSameSize` state exactly when total and text are right.
- MAC commands: the gateway's answer to a time request is a record of five bytes, but four bytes are taken for the whole
  command and the rest is read as further commands (`MacRecords.SizesAreRecords`, `MacRecords.TimeAnswerIsCut`). A table of
  payload sizes in `lorawan-mac.h` is used nowhere and contradicts the records.
- Leap seconds: on the eighteen table instants a GPS time comes back one second early (`LeapSeconds.GpsRoundTrip`).
- Beacon times: the product of refusals and period is taken modulo 2^32; `BeaconSchedule.BeaconsOnSchedule` states
  exactly when times and gaps are whole periods, and `BeaconSchedule.OffSchedule` is a run off the schedule.
- Filters: the value of a device nonce is dropped; `FilterValues.FilterRoundTrip` states exactly which lists survive.
  A filter introduced by "or" never matters (`FilterMatch.AnswerIsEveryFront`, `FilterMatch.OrIsLost`).
- The GPS reader makes room by dropping its eight oldest bytes, so frames of more than 114 bytes can be lost
  (`GpsLoss.LossIffLong`), and a frame inside a frame can win (`GpsLoss.SentenceLostToMessage`).
- Identity record: a zero address is not printed and shifts every field (`IdentityRecord.RoundTripIffAddress`); the
  name field receives the text of the token.

## Model

| member | source | states |
|---|---|---|
| Crc16.Crc16Xmodem | lorawan/helper/crc-helper.cpp:11-25 | for every byte string the loop returns a remainder of M(x)·x^16 by x^16+x^12+x^5+1 over GF(2) |
| Crc16.Crc16Modbus | lorawan/helper/crc-helper.cpp:33-49 | the right-shifting loop returns the bit-reversed remainder for x^16+x^15+x^2+1 from a register of ones |
| Crc16.RemainderIsFeed | lorawan/helper/crc-helper.cpp:11-49 | a word is a remainder of the dividend if and only if the bit-serial register holds it: division has exactly one result |
| Crc16.FeedAsShifts | lorawan/helper/crc-helper.cpp:15-22 | feeding up to sixteen message bits one by one equals injecting them all and then taking that many register steps |
| Crc16.FeedLinear | lorawan/helper/crc-helper.cpp:11-25 | over messages of equal length the register is linear under exclusive or |
| Crc16.BurstDetected | lorawan/helper/crc-helper.cpp:15-22 | messages that differ inside sixteen consecutive bits, anywhere, leave different registers |
| Crc16.TwoByteErrorsDetected | lorawan/helper/crc-helper.cpp:33-49 | any difference confined to two consecutive bytes changes both check values |
| Crc16.XmodemAppend | lorawan/helper/crc-helper.cpp:11-25 | two appended bytes give check value 0 exactly when they are the check value, high byte first |
| Crc16.ModbusAppend | lorawan/helper/crc-helper.cpp:33-49 | the same for the reflected loop, low byte first |
| Crc16.CheckValuesUnique | lorawan/helper/crc-helper.cpp:11-49 | a message has one check value of each kind |
| Crc16.PolynomialTerms | lorawan/helper/crc-helper.cpp:11-49 | the polynomials have exactly the terms x^12, x^5, 1 and x^15, x^2, 1 below x^16 |
| Crc16.XmodemOfOne | lorawan/helper/crc-helper.cpp:11-25 | the check value of the byte 01 is 1021 hexadecimal |
| Crc16.ModbusOf7F | lorawan/helper/crc-helper.cpp:33-49 | the check value of the byte 7F is A0FE hexadecimal |
| MacCommands.TablesAgree | lorawan/lorawan-mac.cpp:1070-1175 | in both directions exactly the known identifiers have a positive size, which fits a stored command |
| MacCommands.ParsersAgree | lorawan/lorawan-mac.cpp:114-456 | the parsers of both directions return the size of the size table for a known identifier with all its bytes, and a negative code otherwise; copying and pointer parsers return the same code except on proprietary identifiers |
| MacStream.CommandsParse | lorawan/lorawan-mac.cpp:1831-1852 | the commands and the rest tile the input, every command is whole, and nothing more can be taken from the rest |
| MacStream.ParseUnique | lorawan/lorawan-mac.cpp:1831-1852 | any such tiling is that one |
| MacStream.UniquelyDecodable | lorawan/lorawan-mac.cpp:287-456 | parsing any concatenation of well-formed commands returns exactly those commands |
| MacStream.ParseExtends | lorawan/lorawan-mac.cpp:1831-1852 | further bytes only extend a parse; the commands already found stay |
| MacStream.MacPtr.Parse | lorawan/lorawan-mac.cpp:1831-1852 | the pointers are the starts of the maximal parse; on a non-empty buffer the code is 0 exactly when all was consumed, otherwise the error of the rest |
| MacStream.StartsCutPieces | lorawan/lorawan-mac.cpp:1831-1852 | start and length of each command cut exactly that command out of the buffer, without gap or overlap |
| MacStream.MacDataList.constructor | lorawan/lorawan-mac.cpp:1213-1235 | the copied list carries the same commands as the pointer loop finds, each element with what earlier commands left behind it in the one buffer |
| MacStream.LeftoverByte | lorawan/lorawan-mac.cpp:1213-1235 | each byte of that buffer comes from the latest command long enough to reach it |
| MacStream.EndDeviceList | lorawan/lorawan-mac.cpp:1240-1259 | for the end-device direction total size and hexadecimal text are those of the consumed bytes |
| MacStream.GatewayList | lorawan/lorawan-mac.cpp:1213-1259 | for the gateway direction the total size is the consumed one if and only if the sizes of the commands found add up alike in both directions; the text is exactly that of the leftover buffers, cut to the other direction's sizes, and right if and only if these pieces give the consumed bytes |
| MacStream.TextIffSameSize | lorawan/lorawan-mac.cpp:1213-1259 | without device status and ping slot requests the text is right exactly when every command has the same size in both directions |
| MacStream.SumsAgree | lorawan/lorawan-mac.cpp:1180-1185 | without device status and ping slot requests the sums agree exactly when every command has the same size in both directions |
| MacStream.SameSizeBothWays | lorawan/lorawan-mac.cpp:1070-1175 | a known command has the same size in both directions exactly for the identifiers 0x01, 0x0b, 0x0f and 0x20 |
| MacStream.GatewayListWitnesses | lorawan/lorawan-mac.cpp:1213-1259 | the list of a LinkCheck answer of three bytes reports one byte; a status request behind it cancels the error in the size, and for one such answer also in the text |
| MacRecords.SizesAreRecords | lorawan/lorawan-mac.h:547-575 | for every identifier and both directions: it is known exactly when it has a record, and its size is one more than the record's bytes if and only if it is not the gateway's time answer, which has six bytes and is cut at four |
| MacRecords.RecordsDecode | lorawan/lorawan-mac.cpp:287-456 | commands made of whole records, the time answer apart, are found again in any concatenation |
| MacRecords.WholeIffNotTimeAnswer | lorawan/lorawan-mac.cpp:287-456 | a single whole command is found as such if and only if it is no time answer |
| MacRecords.TimeAnswerIsCut | lorawan/lorawan-mac.cpp:287-456 | of a time answer four bytes are taken and the rest is read as commands |
| DevAddr.SetDetermines | lorawan/lorawan-types.cpp:1012-1025 | for fields in range, setting all three determines all 32 bits whatever was there, in both layouts and for all eight types |
| FieldWrites.FieldRoundTrip10 | lorawan/lorawan-types.cpp:793-959 | layout 1.0: after setting all three fields the getters return them if and only if the type is not 5 or the two lost bits are 0 |
| FieldWrites.FieldRoundTrip11 | lorawan/lorawan-types.cpp:845-1010 | layout 1.1: after setting all three fields the getters return them if and only if the stated condition on types 3, 4 and 5 holds |
| FieldWrites.SetIdAlone10 | lorawan/lorawan-types.cpp:793-843 | layout 1.0, any word: setting the identifier keeps type and address, and the identifier is read back exactly when on type 5 no other low bit was set |
| FieldWrites.SetIdAlone11 | lorawan/lorawan-types.cpp:845-895 | layout 1.1, any word and the whole setter range: the type survives exactly when the identifier does not spill into it; then the address survives, and the identifier is read back exactly under the stated condition |
| FieldWrites.SetAddrAlone10 | lorawan/lorawan-types.cpp:909-959 | layout 1.0, any word: setting the address keeps the type and is read back, and the identifier survives exactly when on type 5 its two low bits were 0 |
| FieldWrites.SetAddrAlone11 | lorawan/lorawan-types.cpp:960-1010 | layout 1.1, any word: the same, where on type 4 the identifier also takes its low bit from the address |
| DevAddr.TypeIsPrefix | lorawan/lorawan-types.cpp:413-440 | the type getter recognises exactly the words with that prefix |
| AddressSteps.IncrementExact | lorawan/lorawan-types.cpp:1111-1114 | increment fails, changing nothing, exactly at the last address; elsewhere it keeps the type, moves the address by one and adds 1 to the word exactly when the wiped bits are clear |
| AddressSteps.DecrementExact | lorawan/lorawan-types.cpp:1116-1119 | the same downwards, failing exactly at address 0 |
| AddressSteps.DecrementUndoesIncrement | lorawan/lorawan-types.cpp:1111-1119 | decrement restores the word after increment if and only if the wiped bits of type 5 were clear |
| AddressSteps.Enumerate | lorawan/lorawan-types.cpp:1111-1114 | by induction over a 32-bit counter: n > 0 increments from address 0 of any word wipe the two bits of type 5, add n to the word and leave address n of the same type, as far as the address field goes |
| NetworkBlocks.Enumeration | lorawan/lorawan-types.cpp:333-371 | n increments lead from the first address of a network to the address with number n, which is the first word plus n |
| NetworkBlocks.EnumerationEnds | lorawan/lorawan-types.cpp:1111-1114 | the next increment fails, leaving the word, exactly at the last address; before it, it adds 1 |
| NetworkBlocks.BlocksDisjoint | lorawan/lorawan-types.cpp:97-116 | two networks share a device address if and only if type, address and the visible part of the identifier agree |
| NetworkBlocks.TypeRecovered | lorawan/lorawan-types.cpp:413-440 | the type getter recovers the type of every address built from a NetID |
| NetworkBlocks.AddrChangesAlone | lorawan/lorawan-types.cpp:960-1010 | for addresses of a network, setting only the address gives exactly the word built from the new address |
| NetworkBlocks.IdChangesAlone | lorawan/lorawan-types.cpp:845-895 | for identifiers of NetIDs, the word after setting only the identifier is the one built from it exactly when the identifier is fully visible; what the getters return is stated by FieldWrites.SetIdAlone11 |
| DeviceAddresses.NetworkWalk | lorawan/lorawan-types.cpp:333-371 | for every NetID of all eight types, size() increments lead from the first address to the last, which is the first word plus size(), and the next increment fails there |
| DeviceAddresses.NetworksDisjoint | lorawan/lorawan-types.cpp:97-116 | NetIDs of types other than 5 that differ in type or identifier have no address in common |
| DeviceAddresses.FirstAddressTells | lorawan/lorawan-types.cpp:347-359 | two NetIDs have the same first address exactly when they have the same type and agree in the low 6, 6, 9, 10, 11, 13, 15 or 17 bits; on type 5 the two lowest do not count |
| DeviceAddresses.LastAddressTells | lorawan/lorawan-types.cpp:333-345 | the same for the last address |
| NetworkBlocks.IdentifiersFit | lorawan/lorawan-types.cpp:97-116 | the identifiers of NetIDs are those the 1.0 setter accepts; for layout 1.1 that holds exactly for types other than 3 and 4 |
| NetworkBlocks.FieldsTile | lorawan/lorawan-types.cpp:845-1010 | prefix, identifier and address do not overlap, and fill the word exactly for types other than 3 and 4 |
| DeviceAddresses.SetDeterminesWord | lorawan/lorawan-types.cpp:1012-1025 | setting succeeds exactly on fields in range, and success leaves nothing of the old word |
| DeviceAddresses.DeviceAddress.Set | lorawan/lorawan-types.cpp:1012-1025 | code and word after setting three fields; a failure keeps the fields already written |
| DeviceAddresses.DeviceAddress.SetMinAddress | lorawan/lorawan-types.cpp:347-359 | for every NetID the word becomes the first address of its network, which `FirstAddressTells` ties to the bits of the NetID |
| DeviceAddresses.DeviceAddress.SetMaxAddress | lorawan/lorawan-types.cpp:333-345 | for every NetID the word becomes the last address of the network |
| DeviceAddresses.DeviceAddress.Increment | lorawan/lorawan-types.cpp:1111-1114 | code and word after the in-place increment are those about which the step lemmas speak |
| DeviceAddresses.DeviceAddress.Decrement | lorawan/lorawan-types.cpp:1116-1119 | the same for the decrement |
| DeviceAddresses.DeviceAddress.Size | lorawan/lorawan-types.cpp:361-371 | the number of steps from the first to the last address, 0 for an invalid type |
| LeapSeconds.CountLeaps | lorawan/lorawan-date.cpp:232-244 | for both counting rules, entry i is counted exactly when the time has reached its threshold: the counted entries are an initial part of the table |
| LeapSeconds.TableIsCalendar | lorawan/lorawan-date.cpp:193-199 | entry i of the table is midnight of 1 January or 1 July of its year, i leap seconds later |
| LeapSeconds.EpochIs | lorawan/lorawan-date.cpp:193-193 | the epoch difference is the time from 1 January 1970 to 6 January 1980 |
| LeapSeconds.Gps2Utc | lorawan/lorawan-date.cpp:246-254 | the conversion subtracts the leaps counted on the argument, in 32 bits |
| LeapSeconds.Utc2Gps | lorawan/lorawan-date.cpp:256-262 | the conversion adds the leaps counted on the truncated argument, in 32 bits |
| LeapSeconds.UtcRoundTrip | lorawan/lorawan-date.cpp:246-262 | UTC to GPS and back is the identity exactly for times of 32 bits outside the eighteen seconds before the epoch |
| LeapSeconds.GpsRoundTrip | lorawan/lorawan-date.cpp:246-262 | GPS to UTC and back is the identity except at the eighteen table instants, which come back one second early; wrap-around does no harm |
| LeapSeconds.GaloisConnection | lorawan/lorawan-date.cpp:210-262 | utc2gps(u) <= g iff u <= gps2utc(g), exactly at the GPS times whose UTC time fits 32 bits |
| LeapSeconds.ConversionsMonotone | lorawan/lorawan-date.cpp:246-262 | one conversion is strictly increasing, the other monotone |
| PayloadCipher.EncryptPayload | lorawan/helper/aes-helper.cpp:9-64 | for every size, which is first cut to a signed 32-bit number, the in-place loop, with its 8-bit index and 16-bit counter, computes the block-wise function and touches nothing else |
| PayloadCipher.CounterMode | lorawan/helper/aes-helper.cpp:41-64 | up to 256 bytes: each payload byte is combined with its keystream byte and no other byte changes |
| PayloadCipher.Keystream | lorawan/helper/aes-helper.cpp:23-64 | for every cipher, payload byte j meets byte j % 16 of the answer to the block with direction, address, the low 16 counter bits (low byte first) and block number j / 16 + 1 in their places |
| PayloadCipher.CipherInput | lorawan/helper/aes-helper.cpp:23-64 | a cipher that returns its input, on zeros, shows these blocks |
| PayloadCipher.LongPayload | lorawan/helper/aes-helper.cpp:41-64 | for every size, each of the first 256 bytes meets all keystream bytes up to the size that lie a multiple of 256 behind it |
| PayloadCipher.EncryptTwice | lorawan/helper/aes-helper.cpp:9-64 | encrypting twice restores the buffer, for every size |
| PayloadCipher.TailInClear | lorawan/helper/aes-helper.cpp:44-56 | bytes after the first 256 are not changed |
| PayloadCipher.CounterModeIffShort | lorawan/helper/aes-helper.cpp:41-64 | the keystream property holds for every cipher, buffer and place if and only if the size is at most 256 |
| PayloadCipher.CounterBlocksDistinct | lorawan/helper/aes-helper.cpp:23-38 | counter blocks are equal exactly for equal direction, address, 16-bit counter and 8-bit block number |
| MessageStorage.LoadedIsSound | lorawan/lorawan-packet-storage.cpp:44-55 | after loading any buffer the payload of a data frame lies inside the frame |
| MessageStorage.SplitExact | lorawan/lorawan-packet-storage.cpp:339-368 | whatever buffer is loaded over whatever storage, a data frame as stored is exactly header, FOpts, FPort, payload and four bytes if and only if it has a payload byte |
| MessageStorage.SizeInFirstByte | lorawan/lorawan-packet-storage.cpp:339-368 | for a frame with a payload the stored size is frame size less 13 and FOpts length, little-endian |
| MessageStorage.SizeIsSigned | lorawan/lorawan-packet-storage.cpp:239-246 | a stored size is negative exactly with the top bit set |
| MessageStorage.DecodeTouchesPayloadOnly | lorawan/lorawan-packet-storage.cpp:239-268 | decoding combines payload bytes with the keystream and leaves every other byte |
| MessageStorage.DecodeKeystream | lorawan/lorawan-packet-storage.cpp:239-268 | payload byte j, behind header, FOpts and FPort, meets the cipher's answer to the block with the frame's own counter bytes, direction 0 for uplinks and 1 for downlinks |
| MessageStorage.DecodesIff | lorawan/lorawan-packet-storage.cpp:239-268 | a loaded frame is decoded exactly if it is a data frame of at least 13 bytes and its FOpts |
| MessageStorage.DecodeRecovers | lorawan/lorawan-packet-storage.cpp:239-268 | loading and decoding a frame whose payload was encrypted gives back every byte of the plain frame |
| MessageStorage.DecodeTwice | lorawan/lorawan-packet-storage.cpp:239-268 | decoding twice restores the storage |
| MessageStorage.Message.Load | lorawan/lorawan-packet-storage.cpp:44-55 | the bytes are copied, too long a buffer is cut, and the size of a data frame is derived |
| MessageStorage.Message.SetSize | lorawan/lorawan-packet-storage.cpp:339-368 | for every size: only data frames get one, cut to a signed 32-bit number, and only the size field changes |
| MessageStorage.Message.Decode | lorawan/lorawan-packet-storage.cpp:239-268 | true exactly for data frames with a payload; the new content is the decoded one |
| NmeaSentence.NmeaChecksum | third-party/libloragw/src/loragw_gps.c:122-151 | the loop returns the position behind the first '*' and the digits of the exclusive or of what lies before it, without a leading '$', or fails |
| NmeaSentence.XorOfJoined | third-party/libloragw/src/loragw_gps.c:137-144 | the checksum of a text joined from two is the exclusive or of theirs |
| NmeaSentence.HexCharIs | third-party/libloragw/src/loragw_gps.c:156-164 | checksum digits are upper case |
| NmeaSentence.DamageIsNoticed | third-party/libloragw/src/loragw_gps.c:173-196 | a sentence with one damaged byte of text is never valid, unless the byte became a '*' |
| GpsFraming.NmeaFound | gw-dev/usb/rak2287.cpp:561-576 | a sentence with its checksum is recognised whole in front of any further bytes |
| GpsFraming.OnlyNmeaFound | gw-dev/usb/rak2287.cpp:561-576 | whatever is recognised from a '$' on is such a sentence |
| GpsFraming.UbxFound | third-party/libloragw/src/loragw_gps.c:460-569 | a UBX message with checksum is recognised whole in front of any further bytes |
| GpsFraming.OnlyUbxFound | third-party/libloragw/src/loragw_gps.c:460-569 | whatever is recognised as a UBX frame is such a message |
| GpsFraming.FrameIsPrefix | gw-dev/usb/rak2287.cpp:541-576 | whether a frame is accepted depends on its own bytes only |
| GpsFraming.FrameStays | gw-dev/usb/rak2287.cpp:541-576 | an accepted frame stays accepted when more bytes follow |
| GpsStream.StreamIsSafe | gw-dev/usb/rak2287.cpp:516-598 | for any recogniser whose frames lie in the bytes given, in every run, at every loop head: room for a full read, the buffer is the end of the received stream and holds no frame, accepted frames are disjoint pieces of the stream in front of it |
| GpsStream.StreamFrames | gw-dev/usb/rak2287.cpp:541-585 | the accepted frames are frames by their own bytes |
| GpsStream.NoFrameLost | gw-dev/usb/rak2287.cpp:541-597 | every frame of at most 114 bytes in the stream is accepted unless an accepted frame overlaps it |
| GpsStream.FrameAccepted | gw-dev/usb/rak2287.cpp:541-597 | every frame of at most 114 bytes that no other frame of the stream overlaps is accepted |
| GpsStream.GpsStreamIsSound | gw-dev/usb/rak2287.cpp:516-598 | all of this for the program's own recogniser of UBX and NMEA frames |
| GpsLoss.LossIffLong | gw-dev/usb/rak2287.cpp:530-598 | the bound is exact: some reads lose a frame of n bytes, met by no accepted frame, if and only if n is above 114 and such frames exist |
| GpsLoss.LongFrameLost | gw-dev/usb/rak2287.cpp:586-597 | every frame of more than 114 bytes that holds no other is lost when it starts at offset 7 and the bytes come one by one |
| GpsLoss.SentenceLostToMessage | gw-dev/usb/rak2287.cpp:541-592 | for every UBX message of eight bytes without bytes special to sentences: the valid sentence of fourteen bytes around it, arriving in pieces, is lost to it, although no accepted frame holds its start |
| GpsLoss.InnerMessage | third-party/libloragw/src/loragw_gps.c:460-569 | such a message exists |
| GpsStream.NoByteTwice | gw-dev/usb/rak2287.cpp:578-592 | no byte of the stream belongs to two accepted frames |
| GpsStream.PassIsComplete | gw-dev/usb/rak2287.cpp:541-585 | behind the last frame of a pass no position starts an acceptable frame |
| GpsStream.LibraryParser | gw-dev/usb/rak2287.cpp:541-576 | the program's recogniser is self-contained and stable under further bytes |
| GpsStream.Receiver.Turn | gw-dev/usb/rak2287.cpp:530-598 | one turn on the real buffer: the new content and the frames found are those of the stream model |
| GpsStream.Receiver.Scan | gw-dev/usb/rak2287.cpp:541-585 | the two-index scan finds the frames and the end of the last one |
| XtalCorrection.GoodAfterSeventeen | gw-dev/usb/rak2287.cpp:641-669 | the correction is good exactly after 17 or more consecutive valid references, and 1.0 otherwise |
| XtalCorrection.StreakIsLatest | gw-dev/usb/rak2287.cpp:626-638 | the streak is at least n exactly when the last n samples were valid |
| XtalCorrection.GoodCorrectionBounded | gw-dev/usb/rak2287.cpp:655-667 | with all errors in [a,b], a > 0, a good correction lies in [1/b,1/a] |
| XtalCorrection.TimeCheck.Turn | gw-dev/usb/rak2287.cpp:624-669 | one turn of the thread: validity flag and the new averaging state |
| XtalCorrection.GuardIsSound | gw-dev/usb/rak2287.cpp:1322-1324 | every step of every interleaving of check and beacon thread keeps the two threads consistent |
| XtalCorrection.GuardMeansSeventeen | gw-dev/usb/rak2287.cpp:1322-1324 | under every interleaving a true guard means that the last 17 samples were valid |
| XtalCorrection.GuardReached | gw-dev/usb/rak2287.cpp:1322-1324 | for all samples there is a schedule after which the beacon thread's guard holds exactly when the last 17 were valid |
| XtalCorrection.AgeDecides | gw-dev/usb/rak2287.cpp:626-638 | exactly a sample older than thirty seconds, or of negative age, starts everything anew |
| XtalCorrection.StepMovesCloser | gw-dev/usb/rak2287.cpp:663-667 | a step leaves 255/256 of the distance between correction and 1/err |
| BeaconSchedule.BeaconsOnSchedule | gw-dev/usb/rak2287.cpp:1317-1436 | in every run times are positive and strictly increasing; for more than one frequency the channel is k modulo their number for the slot k with k periods <= time < k+1 periods, otherwise 0, and moves on by g after a gap of g periods; a time is a multiple of the period exactly when the losses of the 32-bit products up to it add up to one; a gap is refusals plus one periods exactly when their product fits in 32 bits |
| BeaconSchedule.MultipleIffLossIs | gw-dev/usb/rak2287.cpp:1328-1337 | a beacon, the first one too, that follows a multiple of the period is one exactly when the loss of its own product is |
| BeaconSchedule.AllMultiples | gw-dev/usb/rak2287.cpp:1328-1337 | all times of a run are multiples of the period exactly when each product loses a multiple |
| BeaconSchedule.OffSchedule | gw-dev/usb/rak2287.cpp:1336-1337 | a run with period 100 whose beacon is no multiple of it |
| BeaconSchedule.PassByFirstAccepted | gw-dev/usb/rak2287.cpp:1396-1435 | a pass queues its next beacon at the first accepted attempt, counting the refusals before it |
| BeaconSchedule.GapIsWhole | gw-dev/usb/rak2287.cpp:1336-1337 | a gap is refusals plus one periods exactly when their product does not overflow 32 bits |
| BeaconSchedule.FirstIsWhole | gw-dev/usb/rak2287.cpp:1328-1337 | the first beacon is refusals periods behind the next slot exactly under the same condition |
| BeaconSchedule.PassFitsQueue | gw-dev/usb/rak2287.cpp:1320-1321 | one pass queues at most the free slots |
| BeaconSchedule.ThreeInQueue | third-party/libloragw/jitqueue.h:32 | a pass never queues beyond three beacons in the queue, and fills it up to three when every attempt is accepted |
| BeaconSchedule.Scheduler.FillQueue | gw-dev/usb/rak2287.cpp:1317-1436 | the loop queues the beacons of the model and remembers the last time |
| TxGain.GetTxGainLutIndex | gw-dev/usb/rak2287.cpp:972-1009 | the index is the first with the greatest power not above the request; failure means there is none and gives index 0 |
| TxGain.PowerStep | gw-dev/usb/rak2287.cpp:1140-1150 | the power set is in the table and the greatest not above the request, else entry 0; a warning exactly when the request is not in the table |
| TxGain.BestIsUnique | gw-dev/usb/rak2287.cpp:972-1009 | that index is unique |
| TextCodec.NumberRoundTrip | lorawan/lorawan-string.cpp:274-294 | a stored number of up to eight bytes, printed most significant byte first, is read back byte for byte |
| TextCodec.HexReadBack | lorawan/lorawan-string.cpp:137-145 | the hexadecimal reader gives printed bytes back as the number they spell |
| TextCodec.DigitCode | lorawan/lorawan-string.cpp:103-135 | hexadecimal digits are printed in lower case |
| TextCodec.HexValueIs | lorawan/lorawan-string.cpp:1028-1051 | exactly the digits and the letters a to f in either case are read as digits |
| TextCodec.PrefixRead | lorawan/lorawan-string.cpp:1028-1051 | printed bytes are read alike behind 0x, 0X, a plus sign or a space, and negated behind a minus sign |
| TextCodec.LargeNumbers | lorawan/lorawan-string.cpp:1028-1051 | numbers of nine bytes are clamped to 64 bits, unsigned and signed |
| TextCodec.NegativeNumbers | lorawan/lorawan-string.cpp:1028-1051 | a number of up to eight bytes behind a minus sign is taken modulo 2^64 |
| ValueText.StringToKey | lorawan/lorawan-string.cpp:1062-1083 | the pair loop writes the bytes spelled by the pairs and keeps the rest of the key |
| ValueText.KeyRoundTrip | lorawan/lorawan-string.cpp:296-301 | a printed key is read back, whatever the key held |
| ValueText.HexRoundTrip | lorawan/lorawan-string.cpp:159-180 | reading the hexadecimal text of a byte string gives the byte string |
| ValueText.NonceRoundTrip | lorawan/lorawan-string.cpp:303-328 | printed device and join nonces are read back |
| ValueText.VersionRoundTrip | lorawan/lorawan-string.cpp:970-989 | the stream reader gives every version byte back from its text |
| ValueText.VersionDefaults | lorawan/lorawan-string.cpp:970-989 | missing parts of a version are 0, and an empty text is version 1.0.0 |
| ValueText.ReadNumber | lorawan/lorawan-string.cpp:970-989 | stream extraction reads every decimal number, with or without a plus sign, clamped with the failure flag from 2^31 on |
| ValueText.ReadNegative | lorawan/lorawan-string.cpp:970-989 | the same behind a minus sign, clamped below -2^31 |
| ValueText.ReadNothing | lorawan/lorawan-string.cpp:970-989 | without a digit the number is 0 and the stream fails; at the end or after a failure nothing is tried |
| ValueText.EnumRoundTrip | lorawan/lorawan-string.cpp:524-531 | activation and class are read back exactly when they are valid |
| ValueText.NameRoundTrip | lorawan/lorawan-string.cpp:1093-1101 | a name is read back up to its first NUL and padded with zeros |
| ValueText.KnownNumbers | lorawan/lorawan-string.cpp:274-282 | stored bytes 4 3 2 1 of an address are printed 01020304 |
| ValueText.KnownNames | lorawan/lorawan-string.cpp:518-600 | texts of activations and classes, and of version 1.0.3 stored as 31 hexadecimal |
| FilterText.ParseFilters | lorawan/lorawan-string.cpp:1916-2023 | on every text the tokenising loop ends and returns what the state machine makes of the words of the text |
| FilterText.PrintThenParse | lorawan/lorawan-string.cpp:1868-1893 | for any way of writing and reading values, parsing a printed list gives exactly what reading each value in turn gives, each over what the filters before it left in the parser |
| FilterText.TokensOfNext | lorawan/lorawan-string.cpp:1868-1882 | the printed filter falls into exactly connective, property, operator and quoted value |
| FilterText.FeedWords | lorawan/lorawan-string.cpp:1950-2019 | the three words of a filter append exactly what is read for it |
| FilterText.EitherQuote | lorawan/lorawan-string.cpp:1895-1914 | single and double quotes come off a value alike, and a value without them is left as it is |
| FilterText.Found | lorawan/lorawan-string.cpp:1812-1823 | a table entry is found where it stands |
| FilterValues.FilterRoundTrip | lorawan/lorawan-string.cpp:1868-2023 | for every list of well-formed filters, parsing the printed text gives the list back (property, operator, length, bytes, connective) if and only if each device nonce equals the two bytes the filters before it left in the parser |
| FilterValues.PlainRoundTrip | lorawan/lorawan-string.cpp:1868-2023 | without device nonces the round trip always holds |
| FilterValues.ValueReads | lorawan/lorawan-string.cpp:1825-1866 | reading back a printed value leaves exactly its bytes over what was there, for every property; a device nonce leaves what was there |
| FilterValues.NonceIsDropped | lorawan/lorawan-string.cpp:1992-1995 | a lone filter on a device nonce survives exactly when the nonce is 0 |
| FilterMatch.IsFilteredV | lorawan/lorawan-types.cpp:2289-2305 | the answer is true exactly when every filter not introduced by "or" matches |
| FilterMatch.IsFilteredV2 | lorawan/lorawan-types.cpp:2307-2323 | the same for the second form, and the answer of the first form when the address is the same |
| FilterMatch.ListsAgree | lorawan/lorawan-types.cpp:2289-2323 | the two list forms agree on every list |
| FilterMatch.AnswerIsEveryFront | lorawan/lorawan-types.cpp:2289-2305 | that is the left-to-right reading of every front part of the list |
| FilterMatch.AndListsAreConjunctions | lorawan/lorawan-types.cpp:2289-2305 | lists joined by "and" are conjunctions |
| FilterMatch.OrIsLost | lorawan/lorawan-types.cpp:2289-2305 | a list on which the loop and the left-to-right reading differ |
| FilterMatch.FormsAgree | lorawan/lorawan-types.cpp:2221-2287 | the two forms of the evaluator agree on every filter |
| FilterMatch.OperatorsMeanOrder | lorawan/lorawan-types.cpp:2221-2252 | "=" compares the filter's bytes with the front of the property, "<" and ">" are their lexicographic order at the first difference, the others are the complements |
| FilterMatch.SizesAreProperties | lorawan/lorawan-types.cpp:2192-2218 | the table of property sizes is that of the record's fields |
| FilterQuery.QueryMeans | lorawan/lorawan-string.cpp:1916-2023 | end to end: the filters parsed from a query text (column name, operator sign, quoted value of some device, "and" or "or") select exactly the devices on which every comparison that is first or joined by "and" holds between the bytes of the named columns |
| FilterQuery.ParsedTerm | lorawan/lorawan-string.cpp:1916-2023 | the same filter by filter, for every column but the device nonce |
| FilterQuery.NonceQuery | lorawan/lorawan-string.cpp:1992-1995 | a query for a device nonce finds the devices whose nonce is zero, whatever it asks for |
| FilterQuery.SetMatches | lorawan/lorawan-types.cpp:2221-2252 | any text, stored in a record and read as the value of an "=" filter on the same property, matches if and only if the rest of a key the text leaves alone, and a device nonce, which is not stored, are the same already |
| IdentityRecord.RecordRoundTrip | lorawan/lorawan-types.cpp:1649-1673 | for a non-zero address the line restores address and eleven properties, whatever token, region, name and the old record are; the name becomes the token's text |
| IdentityRecord.RoundTripIffAddress | lorawan/lorawan-types.cpp:1649-1673 | the round trip holds if and only if the address is not zero |
| IdentityRecord.FieldsOfText | lorawan/lorawan-types.cpp:1649-1673 | the printed line splits at its commas into the printed texts up to the token |
| IdentityRecord.StringToIdentity | lorawan/lorawan-string.cpp:1238-1255 | the comma loop stores the fields in order, as the field-by-field fold does |

## Left out

- Sockets, thread start and stop, select loops, USB and radio calls, MQTT, plugins, Wi-Fi, command line programs and generated region tables: input and output, or foreign code.
- The transmit queue and the radio library, except UBX framing and NMEA checksums: their answers are parameters.
- The gateway's private copy of the CRC loop (`crc16`): it differs from crc16xmodem in returning 0 for a null pointer only.
- Sending (`toArray`) with its message integrity code, join accept decryption and key derivation: they rest on cryptographic code that is not part of this model.
- Integrity codes of stored frames, and building downlinks with FOpts: not part of this model.
- JSON forms, MAC command constructors and frequency, bandwidth and coding rate tables: one branch each, they would only add easy members.
- MacStream.MacPtr.Parse: for an empty buffer the program reports an uninitialised variable; its value is a parameter.
- MacStream.MacPtr.constructor: the pointers are modelled as positions in the buffer, and what happens when the buffer is freed is not captured.
- DevAddr.GetNetIdType: the stored word is one `bv32`; the byte view of the union is given by shifts.
- PayloadCipher.EncryptPayload: AES is any function from blocks to blocks, and the 32-bit frame counter enters by its low 16 bits as in the code.
- MessageStorage.Message.Load: a buffer is a sequence, so a buffer overlapping the storage is not captured.
- MessageStorage.Message.Decode: it asks for a payload inside the storage, which every load establishes; with a larger stored size the program writes outside the object, which C++ leaves undefined.
- GpsStream.Receiver.Drop: the program uses `memcpy` on overlapping parts of the buffer, which the C standard leaves undefined; the model moves the bytes as `memmove` does.
- GpsFraming.UbxFrame: the content of messages (time of week, week number) is not decoded, and reads behind short messages are not captured.
- NmeaSentence.ValidNmea: position and time in RMC and GGA sentences are not decoded; they do not decide whether a sentence is taken.
- XtalCorrection.TimeCheck.Turn: rounding of doubles is not captured; state left over from an earlier start of the threads is not either.
- XtalCorrection.GuardIsSound: memory is sequentially consistent; the data race on the flag read without its lock is seen as one atomic read.
- BeaconSchedule.Scheduler.FillQueue: runs are finite prefixes of the endless loop; the refusal counter is taken not to exceed 31 bits.
- TxGain.GetTxGainLutIndex: the pointer check for the result is left out.
- FilterText.StripQuotes: for a lone quote the program reads in front of the string; here nothing further is removed.
- FilterText.ParseFilters: characters are classified as in the C locale.
- FilterValues.FilterRoundTrip: well-formed means a real operator, a connective, valid enum values, and names without NUL or white space; bytes of the sixteen-byte data field beyond the value's length are not compared; the program leaves there what earlier filters stored.
- ValueText.ParseNumber: `strtoul` has 64 bits, as on the 64-bit systems the server runs on.
- IdentityRecord.Set: activation and class are numbers, their width in the packed record is not captured.
- Expiry of UDP clients, stop protocol of the downlink thread, negative microseconds in time sums and transmission on GPS pulse: not part of this model.
