# Telemetry loggers: a verified model of the protocol and scheduling core

This project models, in Dafny, the parts of the home-telemetry loggers that can be checked without
their hardware. It covers the following parts.

- **Blauberg/Vents UDP protocol.** There are three copies of the client: the logger's
  `Communication`/`Reply`, the stand-alone `VentsOverUDP` device client, and its console program.
  - Frame layout: the `FD FD` magic, version `02`, serial and password each behind a length byte,
    then the payload and a 16-bit little-endian checksum over everything after the magic.
  - The item stream of a reply, with its page, size and not-supported directives.
  - The read request the client builds.
  - The typed replies and the item accessors.
- **TP-Link Kasa.** The autokey XOR cipher (key 171) and the 4-byte big-endian length framing.
- **Holtek/ZyTemp CO₂ monitor.** The report decryption (shuffle, XOR, rotate, salt subtraction)
  and the classification of a decrypted report.
- **`DateTimeExtensions`.** `TruncateToSeconds` and `TruncateTo`, on .NET tick counts.
- **`LoggerService`.** The polling loop's `Delay` back-off, and `Retry`.
- **`EbusThermostatSwitcher`.**
  - The switch-window test `InOffPeriod`.
  - `Max`, `YoungerThan`, and the decision `DoWork` takes.
  - The `ebusctl` write `SwitchTo` issues.
- **EnergyConsumptionToTable.** The substitution-cipher helpers: `Swap`, `AddSubstitution`,
  `ReorderSubstitutions` and `Substitute`, plus the initial frequency tables.

How the model represents the source:

- Bytes are integers `0..255`, and XOR is defined arithmetically.
- Exceptions become `Result` errors.
- Code that updates state step by step stays imperative:
  - the checksum loop;
  - the Kasa loops over arrays;
  - the Holtek loops over arrays;
  - `LoggerService.Delay`;
  - the substitution list, as a class holding a sequence.
- Each method is proved against a function, and the properties are proved about that function.

Two behaviours of the code are worth knowing before reading the item-stream model:

- The read request does not group addresses by page (VentsOverUDP/Device.cs:28-41). It keeps the
  caller's order and emits a page switch whenever the next address's page differs from the
  previous one.
- A not-supported directive (`FD`) skips its one argument byte and leaves a pending size directive
  in force (VentsOverUDP/Device.cs:109-111); only an item resets the size to 1.

## Model

| member | source | states |
|---|---|---|
| Bytes.Sum16 | VentsOverUDP/Device.cs:72-74 | the `ushort` accumulation loop yields the byte sum modulo 65536 |
| Bytes.LittleEndian16 | VentsOverUDP/Device.cs:75 | `BitConverter.GetBytes(ushort)` gives two bytes that `ToUInt16` reads back as the same value |
| Bytes.LittleEndian16Inverse | VentsOverUDP/Device.cs:133 | reading two bytes as `ushort` and writing them back gives the same two bytes |
| Bytes.ReadI16 | TelemetryToRaven/Vents/ItemDictionaryExtensions.cs:19 | `ToInt16` is in the int16 range and agrees with the unsigned reading modulo 65536 (two's complement) |
| Bytes.ReadEncodedI16 | TelemetryToRaven/Vents/ItemDictionaryExtensions.cs:19 | every int16 written little-endian reads back as itself |
| Bytes.ReadI16Examples | TelemetryToRaven/Vents/ItemDictionaryExtensions.cs:19 | `E8 00` is 232, `CE FF` is -50 and `FA 00` is 250 tenths of a degree |
| Bytes.XorCancel | TelemetryToRaven/Kasa/Extensions.cs:41-64 | XOR with the same key undoes itself and is commutative, which the cipher round trip rests on |
| Utf8.EncodeChar | VentsOverUDP/Device.cs:64-65 | a character takes 1 to 4 UTF-8 bytes: one exactly when it is ASCII, four exactly beyond the BMP |
| Utf8.EncodedLengths | VentsOverUDP/Device.cs:64-69 | the UTF-8 byte count is at least `string.Length`, with equality exactly for ASCII strings |
| Utf8.EncodeAscii | VentsOverUDP/Device.cs:64-65 | an ASCII string encodes to its character codes, one byte each |
| Utf8.EAcute | VentsOverUDP/Device.cs:65-69 | "é" is two UTF-8 bytes `C3 A9` but one UTF-16 unit |
| Hex.HexBytes | TelemetryToRaven/Vents/Communication.cs:31-39 | parsing succeeds exactly when every pair is hex; the result has `Length/2` bytes, each the value of its pair (a trailing odd character is ignored) |
| Hex.GetBytes | TelemetryToRaven/Vents/Communication.cs:31-39 | the parse loop computes `HexBytes`, failing as `byte.Parse` does on a non-hex pair |
| Hex.HexBytesOfToHex | VentsOverUDP/Program.cs:97-105 | writing bytes as hex and parsing them back gives the same bytes |
| ItemAddresses.FromCodeOfCode | TelemetryToRaven/Vents/ItemAddress.cs:1-55 | every enum member is recovered from its numeric address |
| ItemAddresses.CodesDistinct | TelemetryToRaven/Vents/ItemAddress.cs:1-55 | no two members share an address |
| ItemAddresses.CodesInRange | TelemetryToRaven/Vents/ItemAddress.cs:1-55 | all addresses lie in 1..126 on page 0 and none collides with a stream directive `FC`..`FF` |
| ItemAddresses.SpeedAddresses | TelemetryToRaven/Vents/ItemAddress.cs:26-35 | supply speed n is at 56+2n and extract speed n at 57+2n |
| ItemAddresses.TemperatureSensorAddresses | TelemetryToRaven/Vents/ItemAddress.cs:17-21 | the room and four duct temperature sensors are at 30..34 |
| VentsWire.Eat | VentsOverUDP/Device.cs:143-148 | taking n bytes succeeds iff n bytes remain; the taken and remaining parts concatenate to the buffer |
| VentsWire.EatByte | VentsOverUDP/Device.cs:149-154 | taking a byte succeeds iff the buffer is non-empty, splitting it into head and rest |
| VentsWire.SplitAuth | VentsOverUDP/Device.cs:84-87 | on success the serial and password fields plus the rest rebuild the buffer; a short buffer is an out-of-range error |
| VentsWire.SplitAuthFields | VentsOverUDP/Device.cs:84-87 | fields written with byte-count length prefixes split back into the same serial, password and rest |
| VentsWire.Seal | VentsOverUDP/Device.cs:72-75 | appending the checksum keeps the body and makes any body starting with the magic pass verification |
| VentsWire.Frame | VentsOverUDP/Device.cs:62-76 | a frame has 7 bytes of overhead, starts `FD FD 02` and passes header and checksum verification |
| VentsWire.AuthTextAscii | VentsOverUDP/Device.cs:68-69 | for an ASCII password the character-count length byte equals the byte count, so the fields are well framed |
| VentsWire.AuthTextMisframesPassword | VentsOverUDP/Device.cs:69 | with password "é" the receiver reads password `C3` and leaves `A9` in front of the payload |
| VentsWire.TextFrame | VentsOverUDP/Device.cs:62-76 | the frame as the client builds it, with `password.Length` as the length byte, still passes checksum verification |
| VentsWire.TextFrameAscii | VentsOverUDP/Device.cs:64-69 | for ASCII passwords the client's frame is the well-framed `Frame` |
| VentsWire.VerifyChecksum | VentsOverUDP/Device.cs:124-136 | the summing loop gives the same verdict as `CheckFrame`: header mismatch, checksum mismatch or pass |
| VentsWire.SingleByteCorruptionRejected | VentsOverUDP/Device.cs:124-136 | changing any one byte of a valid frame is detected, as a header mismatch in the magic and as a checksum mismatch elsewhere |
| ItemStream.ParseItems | VentsOverUDP/Device.cs:93-122 | the `while (buffer.Length > 2)` loop computes `ParseFrom` from page 0 and size 1 |
| ItemStream.ParseEncoded | VentsOverUDP/Device.cs:93-122 | any item list encoded with page and size directives, followed by the 2 checksum bytes, parses back to the same items |
| ItemStream.ParseEntry | VentsOverUDP/Device.cs:98-119 | one encoded entry is consumed and recorded, leaving page and size as the next entry expects |
| ItemStream.ParseSizedItem | VentsOverUDP/Device.cs:106-117 | a size directive applies to the next item and is then reset to 1 |
| ItemStream.ParseDirective | VentsOverUDP/Device.cs:103-111 | page, size and not-supported directives each consume exactly one argument byte |
| ItemStream.ParseItemAt | VentsOverUDP/Device.cs:112-118 | an item byte is addressed as `page << 8 \| next` and takes `size` data bytes |
| ItemStream.SizeAppliesToOneItem | VentsOverUDP/Device.cs:106-117 | in a sample reply the two-byte size covers only the item after it |
| ItemStream.NotSupportedKeepsPendingSize | VentsOverUDP/Device.cs:109-111 | a not-supported directive between a size and its item leaves the size pending |
| ItemStream.OversizedItemFails | VentsOverUDP/Device.cs:114 | an item whose size exceeds the remaining bytes fails as `Slice` throws |
| ItemStream.ReadAddressesPayload | VentsOverUDP/Device.cs:28-41 | the request loop builds `ReadRequest`: the read function byte, then each address low byte, with a page switch whenever the page changes |
| ItemStream.RequestRoundTrip | VentsOverUDP/Device.cs:28-41 | decoding the request's page switches and low bytes gives back the caller's address list |
| ItemStream.PageZeroRequest | VentsOverUDP/Device.cs:28-41 | page-0 addresses are sent as their own bytes, with no page switch |
| ItemStream.PageSwitchFollowsCallerOrder | VentsOverUDP/Device.cs:31-39 | page switches follow the caller's order, so a page-1 address first costs an extra switch back |
| VentsDevice.ComposeCommand | VentsOverUDP/Device.cs:62-76 | builds the client's `TextFrame`, which is the well-framed `Frame` for ASCII passwords |
| VentsDevice.ReadAddressesRequest | VentsOverUDP/Device.cs:26-42 | the request sent for a list of addresses is the framed read request |
| VentsDevice.ReadReply | VentsOverUDP/Device.cs:78-91 | the reply reader computes `DecodeReply`: checksum, version, auth fields, function 06, then the items |
| VentsDevice.DecodeFrame | VentsOverUDP/Device.cs:78-91 | a valid frame is refused with the function byte when that is not 06, and otherwise its item stream is parsed |
| VentsDevice.DecodeComposedReply | VentsOverUDP/Device.cs:78-122 | a reply framed around any encodable item list decodes to exactly those items |
| VentsTelemetry.PrefixBytes | TelemetryToRaven/Vents/Communication.cs:14 | the prefix string is the magic and version `FD FD 02` |
| VentsTelemetry.SwitchBytes | TelemetryToRaven/Vents/Communication.cs:11-12 | the on/off commands write 1 or 0 to item 1 |
| VentsTelemetry.TemperaturesBytes | TelemetryToRaven/Vents/Communication.cs:10 | the temperature request is the listed byte string |
| VentsTelemetry.ComposeCommand | TelemetryToRaven/Vents/Communication.cs:16-29 | a non-hex payload is a format error; otherwise the result is the client frame, well framed for ASCII passwords |
| VentsTelemetry.ReadFrom | TelemetryToRaven/Vents/Reply.cs:14-34 | the reader computes `ParseReply`: checksum, 3 header bytes, auth fields, and the subtype's two command bytes at the payload start |
| VentsTelemetry.ParseComposedReply | TelemetryToRaven/Vents/Reply.cs:14-34 | a frame whose payload starts with the subtype's command reads back with the same serial and password, the checksum left on the payload |
| VentsTelemetry.ParseRejectsOtherCommand | TelemetryToRaven/Vents/Reply.cs:31-32 | any other command bytes are refused |
| VentsTelemetry.Int16At | TelemetryToRaven/Vents/Reply.cs:70-71 | reading an int16 at an offset succeeds iff two bytes are there, and yields the int16 congruent modulo 65536 to the little-endian `ushort` of those two bytes |
| VentsTelemetry.TemperatureReadings | TelemetryToRaven/Vents/Reply.cs:67-71 | the outside and exhaust temperatures are the int16 values stored at payload offsets 9 and 24 |
| ItemAccessors.Lookup | TelemetryToRaven/Vents/ItemDictionaryExtensions.cs:10 | the indexer yields the stored bytes iff the address is present, and key-not-found otherwise |
| ItemAccessors.Bool | TelemetryToRaven/Vents/ItemDictionaryExtensions.cs:8-13 | succeeds iff the item has one byte, and is true iff that byte is non-zero; an absent address is `KeyNotFound`, another width `WrongWidth` (the `InvalidOperationException`) |
| ItemAccessors.ByteValue | TelemetryToRaven/Vents/ItemDictionaryExtensions.cs:21-26 | succeeds iff the item has one byte, and returns that byte; an absent address is `KeyNotFound`, another width `WrongWidth` |
| ItemAccessors.Temperature | TelemetryToRaven/Vents/ItemDictionaryExtensions.cs:15-20 | succeeds iff the item has two bytes, and returns their signed little-endian value; an absent address is `KeyNotFound`, another width `WrongWidth` |
| ItemAccessors.TemperatureOfEncoded | TelemetryToRaven/Vents/ItemDictionaryExtensions.cs:15-20 | a stored int16 temperature reads back as itself |
| ItemAccessors.OnAndRoomTemperatureReply | TelemetryToRaven/Vents/ItemDictionaryExtensions.cs:8-20 | a composed reply carrying on/off = 1 and room temperature `FA 00` reads as on and 25.0 °C |
| VentsConsole.ComposeCommand | VentsOverUDP/Program.cs:86-95 | succeeds iff both hex strings parse, giving prefix, auth fields and postfix with no checksum of its own |
| VentsConsole.RequestPrefixBytes | VentsOverUDP/Program.cs:14 | the console prefix is `FD FD 02` |
| VentsConsole.RequestPostfixBytes | VentsOverUDP/Program.cs:14 | the console postfix is the temperature request followed by the fixed bytes `9A 07` |
| VentsConsole.RequestParts | VentsOverUDP/Program.cs:14 | the console request is the frame body followed by the fixed `9A 07` |
| VentsConsole.Request | VentsOverUDP/Program.cs:7-14 | a missing host or serial is an argument-null error; otherwise the request is the body plus `9A 07`, with password "1111" when none is given |
| VentsConsole.RequestIsFrameOnlyForOneChecksum | VentsOverUDP/Program.cs:14 | the hard-coded `9A 07` is a valid checksum iff the body's byte sum is `0x079A` modulo 65536 |
| VentsConsole.ReadFrom | VentsOverUDP/Program.cs:41-70 | a parsed reply is a temperature reply iff its first three bytes are `FD FD 02`, and its parts rebuild the buffer; nothing is verified |
| VentsConsole.TemperatureReadings | VentsOverUDP/Program.cs:76-77 | the console's outside and fan-out temperatures are the int16 values stored at payload offsets 9 and 24 |
| VentsConsole.ReadFromComposed | VentsOverUDP/Program.cs:41-70 | any three leading bytes with well-framed auth fields read back into the same parts |
| Kasa.CipherAt | TelemetryToRaven/Kasa/Extensions.cs:41-52 | each ciphertext byte is the plain byte XOR the previous ciphertext byte (171 first) |
| Kasa.DecipherAt | TelemetryToRaven/Kasa/Extensions.cs:54-64 | each plain byte is the cipher byte XOR the previous cipher byte (171 first) |
| Kasa.DecipherCipher | TelemetryToRaven/Kasa/Extensions.cs:41-64 | decrypting an encryption gives back the plaintext |
| Kasa.CipherDecipher | TelemetryToRaven/Kasa/Extensions.cs:41-64 | encrypting a decryption gives back the ciphertext |
| Kasa.CipherPrefix | TelemetryToRaven/Kasa/Extensions.cs:41-64 | per index, re-encrypting deciphered bytes reproduces the ciphertext |
| Kasa.Encrypt | TelemetryToRaven/Kasa/Extensions.cs:41-52 | the in-place loop over the UTF-8 bytes produces `Cipher` with key 171 |
| Kasa.CipherInPlace | TelemetryToRaven/Kasa/Extensions.cs:44-50 | the running-key loop turns the array's old contents into their `Cipher` under key 171 |
| Kasa.Decrypt | TelemetryToRaven/Kasa/Extensions.cs:54-64 | the in-place loop turns the array into `Decipher` of its old contents |
| Kasa.LengthPrefix | TelemetryToRaven/Kasa/Extensions.cs:25 | the network-order length prefix is 4 bytes that read back as the length |
| Kasa.ReadLength | TelemetryToRaven/Kasa/Extensions.cs:35 | the big-endian int32 length is negative exactly when the top bit is set |
| Kasa.RequestBytes | TelemetryToRaven/Kasa/Extensions.cs:25-27 | the request is the 4-byte length followed by the message |
| Kasa.ReadResult | TelemetryToRaven/Kasa/Extensions.cs:31-39 | fewer than 4 bytes is "too short"; a negative length fails; otherwise the body has the announced length, with unreceived bytes left zero |
| Kasa.ReadWrittenMessage | TelemetryToRaven/Kasa/Extensions.cs:21-39 | reading what the writer sent returns the message, whatever follows it |
| Kasa.ShortBodyIsZeroFilled | TelemetryToRaven/Kasa/Extensions.cs:36-37 | a body shorter than announced comes back padded with zeros |
| Kasa.RequestRoundTrip | TelemetryToRaven/Kasa/Extensions.cs:13-29 | a written JSON request is read back and decrypted to its UTF-8 bytes |
| Holtek.ShuffleInvolution | ZyCO2/ZGm053/ZGm053Service.cs:79 | the shuffle table is a permutation of 0..7 that is its own inverse |
| Holtek.DecryptReport | ZyCO2/ZGm053/ZGm053Service.cs:77-107 | the first 8 bytes become `Decrypted` of their old values; later bytes are untouched |
| Holtek.UnshuffleLoop | ZyCO2/ZGm053/ZGm053Service.cs:81-87 | the scatter-and-XOR loop yields `Unshuffled` |
| Holtek.RotateLoop | ZyCO2/ZGm053/ZGm053Service.cs:89-94 | the loop rotates the 64-bit block right by 3 bits |
| Holtek.SaltLoop | ZyCO2/ZGm053/ZGm053Service.cs:96-101 | the loop swaps the nibbles of the salt "Htemp99e" |
| Holtek.SubtractLoop | ZyCO2/ZGm053/ZGm053Service.cs:103-106 | the write-back loop leaves `Unsalted` of the rotated bytes in the first 8 places and every later byte unchanged |
| Holtek.UnshuffleScattered | ZyCO2/ZGm053/ZGm053Service.cs:81-87 | unshuffling undoes the inverse scatter |
| Holtek.RotateRightLeft | ZyCO2/ZGm053/ZGm053Service.cs:89-94 | the right rotation undoes a left rotation by 3 bits |
| Holtek.UnsaltSalted | ZyCO2/ZGm053/ZGm053Service.cs:103-106 | subtracting the salt modulo 256 undoes adding it |
| Holtek.DecryptEncrypted | ZyCO2/ZGm053/ZGm053Service.cs:77-107 | decryption inverts the composed encryption for every 8-byte report |
| Holtek.RawValue | ZyCO2/ZGm053/ZGm053Service.cs:132 | the raw value is the big-endian 16-bit number in bytes 1 and 2 |
| Holtek.Classify | ZyCO2/ZGm053/ZGm053Service.cs:132-151 | opcode 'P' is a CO₂ reading and 'B' a temperature, each carrying the raw value; any other opcode is kept unnamed |
| Holtek.ParseReading | ZyCO2/ZGm053/ZGm053Service.cs:125-151 | decrypts the report in place and classifies the result |
| Holtek.Stripped | ZyCO2/ZGm053/ZGm053Service.cs:65-70 | a leading zero report id is dropped; otherwise the 9 bytes are kept |
| Holtek.PublishNextReading | ZyCO2/ZGm053/ZGm053Service.cs:63-73 | the reading is the classification of the decrypted first 8 bytes after stripping |
| Holtek.StrippedZeroLead | ZyCO2/ZGm053/ZGm053Service.cs:67-70 | a report behind a zero id byte is recovered exactly |
| Holtek.ReportReadsBack | ZyCO2/ZGm053/ZGm053Service.cs:63-151 | an encrypted report behind a zero id is classified as its plaintext |
| Holtek.Co2ReportReadsBack | ZyCO2/ZGm053/ZGm053Service.cs:132-142 | an encrypted CO₂ report of any 16-bit ppm value reads as that ppm |
| Ticks.TruncateTo | TelemetryToRaven/Meter.cs:18-21 | a zero interval throws; otherwise the result is a multiple of the interval's magnitude, at most t and within one interval of it |
| Ticks.TruncateToSeconds | TelemetryToRaven/Meter.cs:14-17 | the result is a whole second, at most t and less than a second before it |
| Ticks.TruncateToSecondsIsTruncateTo | TelemetryToRaven/Meter.cs:14-21 | truncating to seconds is truncating to a one-second interval |
| Ticks.TruncateToGreatest | TelemetryToRaven/Meter.cs:18-21 | the result is the greatest multiple of the interval not after t |
| Ticks.TruncateToOnBoundary | TelemetryToRaven/Meter.cs:18-21 | a time on a boundary is unchanged |
| Ticks.TruncateToIdempotent | TelemetryToRaven/Meter.cs:18-21 | truncating twice is truncating once |
| Ticks.TruncateToMonotone | TelemetryToRaven/Meter.cs:18-21 | truncation preserves the order of times |
| Ticks.TruncateToNegatedInterval | TelemetryToRaven/Meter.cs:20 | a negative interval truncates like its magnitude, as C#'s `%` takes the dividend's sign |
| Ticks.TruncateToSecondsExamples | TelemetryTests/ExtensionTest.cs:10-19 | the five test timestamps truncate to the expected whole seconds |
| Ticks.TruncateToTenthExamples | TelemetryTests/ExtensionTest.cs:23-30 | the three test timestamps truncate to the expected tenths |
| Logging.SuccessDelay | TelemetryToRaven/LoggerService.cs:39-40 | after a success the wait is the rest of the minute, but never under 5 s |
| Logging.NextDelayInRange | TelemetryToRaven/LoggerService.cs:39-47 | a pass keeps `Delay` in [5 s, 2 h); a failure doubles it below an hour and leaves it alone from an hour on |
| Logging.WaitsInRange | TelemetryToRaven/LoggerService.cs:28-50 | every wait of any run of passes stays in [5 s, 2 h) |
| Logging.FailuresDouble | TelemetryToRaven/LoggerService.cs:45-46 | after n failures in a row the wait is at least the start times 2ⁿ, or an hour if that is smaller |
| Logging.TenFailuresReachCeiling | TelemetryToRaven/LoggerService.cs:42-47 | ten failures in a row from any reachable wait make the wait at least an hour |
| Logging.LoggerService.constructor | TelemetryToRaven/LoggerService.cs:21-26 | a new service waits the base interval, which is in range |
| Logging.LoggerService.Pass | TelemetryToRaven/LoggerService.cs:33-48 | one pass times out after two base intervals, sets `Delay` by the success or failure rule, waits it, and keeps it in range |
| Logging.LoggerService.ExecuteAsync | TelemetryToRaven/LoggerService.cs:28-50 | the loop's waits are the `Waits` sequence from the starting `Delay`; `Delay` ends as the last wait (unchanged when nothing ran), and the range invariant holds throughout |
| Logging.Retry | TelemetryToRaven/LoggerService.cs:62-73 | the action runs once if it succeeds and twice otherwise; the last result is returned, and an error means both calls failed |
| Thermostat.InOffPeriod | TelemetryToRaven/Ebus/EbusThermostatSwitcher.cs:75-83 | the loop answers off iff no window contains the time of day |
| Thermostat.InvertedWindowNeverCovers | TelemetryToRaven/Ebus/EbusThermostatSwitcher.cs:75-83 | a window with start after end never matches, and no windows leaves every time off |
| Thermostat.Max | TelemetryToRaven/Ebus/EbusThermostatSwitcher.cs:103-106 | the result is one of the two spans and at least both |
| Thermostat.MaxCommutes | TelemetryToRaven/Ebus/EbusThermostatSwitcher.cs:103-106 | the argument order does not matter |
| Thermostat.YoungerThan | TelemetryToRaven/Ebus/EbusThermostatSwitcher.cs:112-115 | the kept entries are exactly those strictly after the cutoff |
| Thermostat.YoungerThanAppend | TelemetryToRaven/Ebus/EbusThermostatSwitcher.cs:112-115 | filtering distributes over concatenation, keeping the order |
| Thermostat.YoungerThanSingle | TelemetryToRaven/Ebus/EbusThermostatSwitcher.cs:114 | an entry at the cutoff is dropped and one after it kept |
| Thermostat.YoungerThanNested | TelemetryToRaven/Ebus/EbusThermostatSwitcher.cs:112-115 | filtering by an earlier cutoff and then a later one is filtering by the later one |
| Thermostat.QueryCoversBothWindows | TelemetryToRaven/Ebus/EbusThermostatSwitcher.cs:51-53 | fetching from `now - Max(on, off)` on keeps everything the on-period and off-period windows select from the whole history |
| Thermostat.DoWork | TelemetryToRaven/Ebus/EbusThermostatSwitcher.cs:18-73 | the pass takes `Decide`'s decision, with the window loop in place of the predicate |
| Thermostat.WarmOutsideWindowsSwitchesToThermostat | TelemetryToRaven/Ebus/EbusThermostatSwitcher.cs:47-48 | warm weather with no switch windows selects thermostat mode whatever the setpoints |
| Thermostat.FewSamplesNeverSwitch | TelemetryToRaven/Ebus/EbusThermostatSwitcher.cs:55-59 | in cold weather fewer than ten setpoints never cause a switch |
| Thermostat.EmptyRecentWindowMeansLongRun | TelemetryToRaven/Ebus/EbusThermostatSwitcher.cs:62-66 | no setpoint inside the on-period counts as a long run and selects thermostat mode |
| Thermostat.LongOffSwitchesToModulating | TelemetryToRaven/Ebus/EbusThermostatSwitcher.cs:67-71 | all setpoints off, with one inside the on-period, selects modulating mode |
| Thermostat.SwitchCommand | TelemetryToRaven/Ebus/EbusThermostatSwitcher.cs:85-95 | nothing is written iff the desired and actual settings are equal; otherwise the `ebusctl` write of the desired one |
| Thermostat.SwitchCommandIdempotent | TelemetryToRaven/Ebus/EbusThermostatSwitcher.cs:85-95 | once a setting is in effect, asking for it again writes nothing |
| Substitution.IndexOf | EnergyConsumptionToTable/Program.cs:69-70 | `List.IndexOf` gives the first position holding the character, or -1 iff it is absent |
| Substitution.IndexOfDistinct | EnergyConsumptionToTable/Program.cs:69-70 | in a list without repeats each element's index is its position |
| Substitution.Swap | EnergyConsumptionToTable/Program.cs:66-74 | the list becomes `Swapped` of its old contents |
| Substitution.SwappedExchanges | EnergyConsumptionToTable/Program.cs:66-74 | if both letters are present their slots are exchanged and all others kept, otherwise nothing changes; a permutation either way |
| Substitution.SwapInvolution | EnergyConsumptionToTable/Program.cs:66-74 | swapping keeps guesses distinct, and swapping twice restores them |
| Substitution.AddSubstitution | EnergyConsumptionToTable/Program.cs:56-64 | an existing guess is refused without change; otherwise cipher v1's slot becomes v2, and an index outside the list is an error |
| Substitution.WithSubstitutionReplacesOne | EnergyConsumptionToTable/Program.cs:56-64 | fails iff v2 is new and v1 has no slot; on success only v1's slot changes and the guesses stay distinct |
| Substitution.Removed | EnergyConsumptionToTable/Program.cs:50 | `List.Remove` deletes the first occurrence, or nothing if absent |
| Substitution.Inserted | EnergyConsumptionToTable/Program.cs:53 | `List.Insert` puts the character at the index, one longer |
| Substitution.RemovedMultiset | EnergyConsumptionToTable/Program.cs:50 | removal deletes exactly one copy |
| Substitution.ReorderSubstitutions | EnergyConsumptionToTable/Program.cs:48-54 | the list becomes `Reordered` of its old contents |
| Substitution.ReorderedMovesBefore | EnergyConsumptionToTable/Program.cs:48-54 | for two distinct present letters, v2 is moved directly before v1 and the letters are a permutation |
| Substitution.ReorderedDropsLetter | EnergyConsumptionToTable/Program.cs:50-53 | when v1 is not found after removing v2, v2 is lost and the list shrinks |
| Substitution.ReorderSameLetterShrinks | EnergyConsumptionToTable/Program.cs:50-53 | the command with v1 = v2 always loses that letter |
| Substitution.ReorderSubstitutionsKeepingLetters | EnergyConsumptionToTable/Program.cs:48-54 | the corrected reorder sets the list to `ReorderedKeepingLetters` |
| Substitution.ReorderedKeepingLettersPreserves | EnergyConsumptionToTable/Program.cs:48-54 | the corrected reorder keeps length and letters, and agrees with the original wherever that keeps them |
| Substitution.ReplaceChar | EnergyConsumptionToTable/Program.cs:80 | `string.Replace(char, char)` rewrites every occurrence and nothing else |
| Substitution.Applied | EnergyConsumptionToTable/Program.cs:76-83 | the rewritten text has the length of the ciphertext |
| Substitution.Substitute | EnergyConsumptionToTable/Program.cs:76-83 | fails iff there are fewer guesses than ciphers; otherwise the loop applies the replacements in order |
| Substitution.AppliedPointwise | EnergyConsumptionToTable/Program.cs:76-83 | each output character is its input character pushed through the replacement chain |
| Substitution.AppliedRewritesTwice | EnergyConsumptionToTable/Program.cs:78-81 | a guess that is itself a later cipher is rewritten again (`a→b`, `b→c` turns "a" into "c") |
| Substitution.ChainIsLookup | EnergyConsumptionToTable/Program.cs:76-83 | when no guess is a cipher, the chain is a table lookup |
| Substitution.FirstAppearances | EnergyConsumptionToTable/Program.cs:20 | the groups are the text's distinct characters, each once |
| Substitution.FirstAppearancesInOrder | EnergyConsumptionToTable/Program.cs:20 | `GroupBy` yields its keys in the order of their first appearance in the text |
| Substitution.InsertByCount | EnergyConsumptionToTable/Program.cs:20 | the insertion adds exactly the one key |
| Substitution.InsertByCountSorted | EnergyConsumptionToTable/Program.cs:20 | insertion keeps the keys in descending count order |
| Substitution.InsertByCountDistinct | EnergyConsumptionToTable/Program.cs:20 | inserting a new key keeps the keys distinct |
| Substitution.FrequencySorted | EnergyConsumptionToTable/Program.cs:20 | the sort is in descending count order and a permutation of the keys |
| Substitution.FrequencySortedStable | EnergyConsumptionToTable/Program.cs:20 | the sort is stable: keys of equal count keep their input order, as `OrderByDescending` does |
| Substitution.FrequencySortedDistinct | EnergyConsumptionToTable/Program.cs:20 | sorting distinct keys keeps them distinct |
| Substitution.FrequencyOrder | EnergyConsumptionToTable/Program.cs:20 | the ciphers are the text's distinct characters, most frequent first, and characters of equal count in the order they first appear in the text |
| Substitution.InitialTables | EnergyConsumptionToTable/Program.cs:18-30 | succeeds iff there are at most 26 distinct characters; the ciphers are the frequency order and the guesses the English letters by rank |
| Substitution.InitialGuessIsFrequencyRank | EnergyConsumptionToTable/Program.cs:18-35 | with no English letter in the text, the first decryption maps each character to the English letter of its frequency rank |

## Left out

- Network and device I/O is not modelled; received buffers and outcomes are parameters instead. This covers:
  - UDP send and receive with the 2-second timeout;
  - the Kasa TCP stream;
  - the HID feature report and reads;
  - `ebusctl` processes (`RunScript`, `RunCommand`, `GetFromThermostat`);
  - RavenDB sessions, documents and time series;
  - the clock (`DateTime.UtcNow`, `Stopwatch`).
- UTF-8 decoding of the reply's serial and password, and of Kasa replies, is not modelled. These stay bytes, because decoding does not affect framing.
- JSON serialisation of Kasa requests and replies is not modelled, and neither are `PowerReading` and `InfoReading`. They are dynamic-object accessors.
- Floating-point scaling is not modelled; values stay as the integers the bytes carry (tenths of a degree, sixteenths of a kelvin). This covers:
  - `/ 10.0` in the temperature getters;
  - `rawValue / 16.0 - 273.15` in the CO₂ service.
- `BitConverter` is modelled for a little-endian host only.
- ItemAddresses.FromCode carries no contract of its own. Its partner lemma `FromCodeOfCode` states the inverse property.
- The `VentsOverUDP/Reply.cs` copy of the reply reader is modelled once, by VentsDevice.DecodeReply. Its `ParseItems` is the same loop as the device client's minus the dictionary, and its enum equals `ItemAddress.cs`.
- `GetString` and `PayloadString`, hex dumps for logging, are not modelled.
- Kasa.ReadResult models a partial body read only as zero-filling. A read of fewer bytes than announced leaves the rest of the array zero.
- Holtek.DecryptReport runs each of its four loops as a separate method. The first three return fresh arrays, as the source's locals are. `data` is the only array updated in place, by the last loop.
- Holtek.PublishNextReading assumes the HID read fills all 9 bytes.
- Holtek.Classify keeps an unnamed opcode as a value. The source then appends a measurement under a null series name, which the store rejects; that is not modelled.
- `DateTime.Kind` is not modelled; a truncated time is only a tick count.
- Logging.LoggerService keeps the base rule's range [5 s, 2 h). `P1Logger` assigns `Delay` inside its own work, which is outside that rule and not modelled. `BaseInterval` is never reassigned by the loggers, so it is a constant here.
- Logging.Retry models each attempt's outcome as given. Exceptions thrown by the second attempt propagate in the source, which the model shows as the second `Err`.
- Thermostat.DoWork models neither the setpoint query nor the thermostat reading. The setpoints from `QueryStart` on and the average outside temperature are parameters (QueryCoversBothWindows shows that range is enough for both windows), and NaN values are not modelled (values are reals).
- `EbusMeter` as shipped lacks the switcher's fields. The `Config` datatype lists the fields the switcher reads.
- The console loop of EnergyConsumptionToTable (`Main`'s input dispatch), `Print` and `TheOldMain` are not modelled. They are I/O and a one-off energy recalculation over the store.
- The default ciphertext's table size is not evaluated on the literal. InitialTables states the general condition: at most 26 distinct characters.

## Findings

| source | as written | input that shows it | evidently intended | confidence | as-written member | corrected member |
|---|---|---|---|---|---|---|
| VentsOverUDP/Device.cs:69 | the password length byte is `password.Length`, a UTF-16 unit count, while the bytes that follow are UTF-8; the same line is at TelemetryToRaven/Vents/Communication.cs:22 and VentsOverUDP/Program.cs:92 | password "é": length byte 1, then bytes `C3 A9`, so the unit reads password `C3` and takes `A9` as the first payload byte | the byte count of the encoded password, as is done for the serial | not executed | VentsWire.AuthTextMisframesPassword | VentsWire.SplitAuthFields |
| EnergyConsumptionToTable/Program.cs:50-53 | after `Remove(v2)` succeeds, v2 is re-inserted only if v1 is still found, so otherwise it is lost | command "@ee" with "e" among the guesses: the guesses become one shorter than the ciphers, and the next `Substitute` (line 35) indexes past them at line 80 | move v2 before v1 when v1 is present, and otherwise leave the list as it was | not executed | Substitution.ReorderSameLetterShrinks | Substitution.ReorderedKeepingLettersPreserves |
