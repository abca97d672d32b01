# Binho host adapter: SPI driver framing and device identifier logic

This project models, in Dafny, two pieces of the Binho host-adapter Python
package:

- **The SPI driver** (`binhoSPIDriver`). Every operation builds one ASCII
  command line `SPI0 <VERB> [args]`, sends it over the adapter connection,
  reads exactly one reply line and checks how that line starts: `-OK` for
  setters, `begin`, `end` and write-only transfers, `-SPI0 <TAG>` for getters
  and reads. The value is then cut from the reply at a fixed offset. It is
  decimal for CLK, MODE and TXBITS, raw text for ORDER, and hex bytes for RXD.
  `writeToReadFrom` also builds a hex packet byte by byte.
- **The host-adapter object's own logic** (`binhoAPI`). This covers the
  `_to_hex_string` helper, the merging of default and caller identifiers, the
  `serial_number=None` clean-up in the constructor, and the rule
  `accepts_connected_device` uses to pick a serial port and accept the
  adapter on it.

Module layout:

| file | module | what it holds |
|---|---|---|
| results.dfy | `Results` | `Option`, `Result`, and the head and tail of a reply queue |
| text.dfy | `Text` | `startswith`, `s[k:]`, substring `in`, `str()` of an int, `int()` of a decimal literal |
| hex.dfy | `Hex` | `"{:02x}"`, `_to_hex_string`, `bytearray.fromhex`, and their round trip |
| device.dfy | `Device` | identifier dictionaries, `BinhoApi` construction, port selection and acceptance |
| transport.dfy | `Transport` | the adapter connection as a scripted transport: a log of sent commands and read replies, and a queue of canned replies |
| spi_protocol.dfy | `SpiProtocol` | command lines, reply checks and payload parsing, as functions |
| spi_driver.dfy | `SpiDriver` | the driver class, whose methods each do one send and one read |

The connection object (`usb`) is a `ScriptedTransport`. `_sendCommand`
appends `Sent(command)` to its log. `_readResponse` takes the head of the
reply queue and appends `Received(reply)`. Each driver method's contract
therefore states exactly which command it sent, that it read exactly one
reply after sending, and what it returned or raised. Python exceptions are
`Err` values: `RuntimeError` with the driver's own message text,
`ValueError` when `int()` or `fromhex` refuses the payload, and `TypeError`
and `IndexError` where Python would raise them. The device manager
(`binhoDeviceManager`) is given as data. It holds the list of available
ports, the port of each device id, and a partial map from port to USB
hardware id. A port missing from that map stands for the manager's
`DeviceNotFoundError`.

Points of the code's own behaviour that the model keeps as written:

- A refused reply raises `RuntimeError`. Its message names the reply and the
  prefix that was expected.
- `transfer` sends `"SPI0 TXRX " + str(data)`, the data's Python text, not a
  hex rendering of it.
- Every reply is checked against a fixed prefix by the operation that asked
  for it.
- The getters check for the tag without its trailing space, then slice one
  character past it.
- `writeToReadFrom` with a read checks for the literal `-SPI0 RXD ` and
  decodes from position 9. The decoder skips the space left at the front.

## Model

| member | source | states |
|---|---|---|
| `Hex.ByteToHexDigits` | binho/comms/device.py:305 | `"{:02x}"` of a byte is two lower-case hex digits, high nibble first, whose values give the byte back |
| `Hex.ByteToHex` | binho/comms/drivers/spi.py:153 | `"{:02x}"` of a byte is two characters, zero-padded below 16 |
| `Hex.ToHexString` | binho/comms/device.py:302-306 | `_to_hex_string` output is exactly twice as long as the input; the empty array gives the empty string |
| `Hex.ToHexStringAt` | binho/comms/device.py:305-306 | characters 2i and 2i+1 of `_to_hex_string` are the two digits rendering byte i |
| `Hex.ToHexStringSlice` | binho/comms/device.py:305-306 | the two-character slice at 2i of `_to_hex_string` is the zero-padded rendering of byte i |
| `Hex.ToHexStringAppend` | binho/comms/drivers/spi.py:152-153 | rendering a concatenation is the concatenation of the renderings, so the packet can grow one byte at a time |
| `Hex.FromHexToHexString` | binho/comms/device.py:305 | `bytearray.fromhex` applied to the hex rendering gives back the original bytes |
| `Hex.FromHexSkipsLeadingSpace` | binho/comms/drivers/spi.py:190 | whitespace in front of the hex payload does not change what `fromhex` decodes |
| `Hex.FromHex` | binho/comms/drivers/spi.py:143 | `bytearray.fromhex` decodes at most one byte per two characters, and text starting with a character that is neither whitespace nor a hex digit is a ValueError |
| `Text.StartsWith` | binho/comms/drivers/spi.py:28 | `s.startswith(p)` holds exactly when s is p followed by the rest of s |
| `Text.SliceFrom` | binho/comms/drivers/spi.py:20 | `s[k:]` is the suffix after the first k characters, or empty past the end |
| `Text.Contains` | binho/comms/device.py:229 | `sub in s` holds exactly when `sub` occurs at some position of `s` |
| `Text.ParseInt` | binho/comms/drivers/spi.py:20 | `int()` succeeds exactly on an optional sign followed by at least one digit, and its sign follows the text |
| `Text.IntToString` | binho/comms/drivers/spi.py:25 | `str()` of an int is non-empty and starts with a minus sign exactly when the int is negative |
| `Text.IntToStringRoundTrip` | binho/comms/drivers/spi.py:25 | `int(str(n)) == n` for every integer, so a value set with `str(clock)` reads back unchanged |
| `Device.PopulateDefaultIdentifiers` | binho/comms/device.py:31-47 | the keys are idVendor, idProduct and find_all plus the caller's keys; every caller key keeps the caller's value; a default survives only where the caller gave none, and find_all is the argument when not overridden |
| `Device.WithoutNullSerial` | binho/comms/device.py:81-85 | a serial number that is None is removed and nothing else is; a serial number that is not None is kept |
| `Device.BinhoApi.constructor` | binho/comms/device.py:49-85 | the port is taken from the identifiers, the adapter is not in bootloader mode, and the identifiers are the populated defaults without a None serial number |
| `Device.Truthy` | binho/comms/device.py:206 | an identifier value is truthy exactly when it is none of None, False, 0 and the empty string |
| `Device.AsIndex` | binho/comms/device.py:214-216 | an int is used as the index as it is; a bool counts as 0 (False) or 1 (True); any other value has no index, a TypeError |
| `Device.ListPosition` | binho/comms/device.py:216 | `ports[i]` reads position i, or counts from the end for a negative i, and is an IndexError outside -len..len-1 |
| `Device.SelectPort` | binho/comms/device.py:206-216 | a truthy deviceID takes precedence over index and gives the manager's port; with an index only, an index at or past the port count is DeviceNotFoundError, 0 <= i picks `ports[i]`, a negative i down to -len picks `ports[len+i]`, a lower one is IndexError and a non-integer index is TypeError; with neither, nothing changes; only the port key is ever written |
| `Device.HwidAccepted` | binho/comms/device.py:228-231 | a looked-up hardware id is accepted exactly when it is present and "04D8" occurs in it; the emptiness test never decides on its own |
| `Device.Acceptance` | binho/comms/device.py:206-231 | accepted exactly when the port is found, its hardware id looked up, non-empty and contains "04D8"; a failed lookup gives False, not an error; an error of the port selection is raised unchanged; a missing port key is a KeyError |
| `Device.AcceptsConnectedDevice` | binho/comms/device.py:196-231 | returns the acceptance decision and writes the chosen port into the caller's dictionary before the lookup, leaving it untouched when the selection raises |
| `Transport.ScriptedTransport.SendCommand` | binho/comms/drivers/spi.py:10 | sending appends the command to the log and leaves the reply queue alone |
| `Transport.ScriptedTransport.ReadResponse` | binho/comms/drivers/spi.py:11 | reading returns the head of the reply queue, removes it, and logs it |
| `SpiProtocol.Subsystem` | binho/comms/drivers/spi.py:10 | the subsystem name is "SPI" followed by text that reads back as the SPI index |
| `SpiProtocol.QueryCommand` | binho/comms/drivers/spi.py:10 | a query is the set command for the same verb with the argument "?" |
| `SpiProtocol.SetCommand` | binho/comms/drivers/spi.py:25 | a set command is the subsystem, the verb and a space, and the argument is recovered whole from the rest |
| `SpiProtocol.ActionCommand` | binho/comms/drivers/spi.py:121 | an action command is the subsystem and a space, and the verb is recovered whole from the rest |
| `SpiProtocol.ReplyTag` | binho/comms/drivers/spi.py:13 | the tag a data reply starts with is the command for that tag with a leading "-" |
| `SpiProtocol.Complaint` | binho/comms/drivers/spi.py:14-18 | the RuntimeError text starts "Error Binho responded with ", holds the reply right after it and the expected prefix just before the closing quote |
| `SpiProtocol.WhrCommandFields` | binho/comms/drivers/spi.py:164-173 | the WHR command is the set command for "WHR" whose argument is the write-only flag ("0" when reading, "1" otherwise), str(numBytes) and the packet, and the command ends with the packet |
| `SpiProtocol.OkReply` | binho/comms/drivers/spi.py:28-33 | succeeds with True exactly when the reply starts with "-OK", otherwise RuntimeError naming the reply and "-OK" |
| `SpiProtocol.EndReply` | binho/comms/drivers/spi.py:197-203 | True exactly on "-OK"; a refusal gives None with suppressError and RuntimeError naming "-OK" without it |
| `SpiProtocol.QueryPayload` | binho/comms/drivers/spi.py:13-20 | succeeds exactly when the reply starts with "-SPI0 TAG" and then yields the reply's suffix from the offset; otherwise RuntimeError naming the expected tag |
| `SpiProtocol.IntReply` | binho/comms/drivers/spi.py:13-20 | a numeric getter succeeds exactly when the tag matches and the payload is a decimal int, and returns that int; a non-numeric payload is a ValueError and a bad tag the RuntimeError |
| `SpiProtocol.RxdReply` | binho/comms/drivers/spi.py:136-143 | `transfer` succeeds exactly when the reply starts with "-SPI0 RXD" and the text from position 9 is valid hex, and returns those bytes; a bad prefix is the RuntimeError naming "-SPI0 RXD" and bad hex a ValueError |
| `SpiProtocol.WhrReply` | binho/comms/drivers/spi.py:177-190 | a write-only WHR succeeds with no bytes exactly on "-OK" and otherwise raises RuntimeError naming "-OK"; a reading WHR succeeds exactly when the reply starts with the literal "-SPI0 RXD " and the text from position 9 is valid hex, and returns those bytes; a bad prefix is RuntimeError and bad hex a ValueError |
| `SpiProtocol.WhrPacket` | binho/comms/drivers/spi.py:147-159 | writing n > 0 bytes gives 2n characters rendering data[0..n-1]; writing none gives "0"; reading repeats the value's rendering n times; a wrong data shape or a short buffer raises |
| `SpiProtocol.IntReplyRoundTrip` | binho/comms/drivers/spi.py:13-20 | a reply "-SPI0 TAG n" is read back as n when the offset is the tag length plus one |
| `SpiProtocol.ClockRoundTrip` | binho/comms/drivers/spi.py:13-20 | offset 10 reads back the clock value the device reports after "-SPI0 CLK " |
| `SpiProtocol.OrderRoundTrip` | binho/comms/drivers/spi.py:41-48 | offset 12 reads back the bit order text after "-SPI0 ORDER " |
| `SpiProtocol.ModeRoundTrip` | binho/comms/drivers/spi.py:69-76 | offset 11 reads back the mode after "-SPI0 MODE " |
| `SpiProtocol.BitsRoundTrip` | binho/comms/drivers/spi.py:97-104 | offset 13 reads back the bits per transfer after "-SPI0 TXBITS " |
| `SpiProtocol.RxdPayloadDecodes` | binho/comms/drivers/spi.py:185-190 | the text from position 9 of "-SPI0 RXD " + hex, space included, decodes to the bytes rendered |
| `SpiProtocol.RxdRoundTrip` | binho/comms/drivers/spi.py:136-143 | bytes the device reports in hex after "-SPI0 RXD " come back unchanged from `transfer` |
| `SpiProtocol.WhrReadRoundTrip` | binho/comms/drivers/spi.py:185-190 | bytes the device reports in hex after "-SPI0 RXD " come back unchanged from a reading `writeToReadFrom` |
| `SpiDriver.BinhoSpiDriver.constructor` | binho/comms/drivers/spi.py:2-5 | the driver keeps the connection and its SPI index is 0 whatever index it was given |
| `SpiDriver.BinhoSpiDriver.ClockFrequency` | binho/comms/drivers/spi.py:7-20 | sends "SPI0 CLK ?", then reads exactly one reply, and returns its integer value from offset 10 or raises |
| `SpiDriver.BinhoSpiDriver.SetClockFrequency` | binho/comms/drivers/spi.py:22-33 | sends "SPI0 CLK " + str(clock), then reads one reply, and returns True exactly on "-OK" |
| `SpiDriver.BinhoSpiDriver.BitOrder` | binho/comms/drivers/spi.py:35-48 | sends "SPI0 ORDER ?", then reads one reply, and returns its text from offset 12 or raises |
| `SpiDriver.BinhoSpiDriver.SetBitOrder` | binho/comms/drivers/spi.py:50-61 | sends "SPI0 ORDER " + order, then reads one reply, and returns True exactly on "-OK" |
| `SpiDriver.BinhoSpiDriver.Mode` | binho/comms/drivers/spi.py:63-76 | sends "SPI0 MODE ?", then reads one reply, and returns its integer value from offset 11 or raises |
| `SpiDriver.BinhoSpiDriver.SetMode` | binho/comms/drivers/spi.py:78-89 | sends "SPI0 MODE " + str(mode), then reads one reply, and returns True exactly on "-OK" |
| `SpiDriver.BinhoSpiDriver.BitsPerTransfer` | binho/comms/drivers/spi.py:91-104 | sends "SPI0 TXBITS ?", then reads one reply, and returns its integer value from offset 13 or raises |
| `SpiDriver.BinhoSpiDriver.SetBitsPerTransfer` | binho/comms/drivers/spi.py:106-117 | sends "SPI0 TXBITS " + str(bits), then reads one reply, and returns True exactly on "-OK" |
| `SpiDriver.BinhoSpiDriver.Begin` | binho/comms/drivers/spi.py:119-129 | sends "SPI0 BEGIN", then reads one reply, and returns True exactly on "-OK" |
| `SpiDriver.BinhoSpiDriver.Transfer` | binho/comms/drivers/spi.py:131-143 | sends "SPI0 TXRX " + the data text, then reads one reply, and returns the hex-decoded RXD payload or raises |
| `SpiDriver.BinhoSpiDriver.WriteToReadFrom` | binho/comms/drivers/spi.py:145-190 | sends "SPI0 WHR flag n packet", with flag "1" exactly when not reading, then reads one reply; an exception while building the packet sends and reads nothing |
| `SpiDriver.BinhoSpiDriver.End` | binho/comms/drivers/spi.py:192-203 | sends "SPI0 END", then reads one reply; returns True on "-OK", and otherwise raises, or gives None with suppressError |
| `SpiDriver.BuildDataPacket` | binho/comms/drivers/spi.py:147-159 | the packet-building code computes exactly the WHR packet, including the exceptions it raises |
| `SpiDriver.HexOfBytes` | binho/comms/drivers/spi.py:152-153 | the write loop appends byte after byte and ends with the hex rendering of data[0..numBytes-1] |
| `SpiDriver.HexOfRepeated` | binho/comms/drivers/spi.py:158-159 | the read-only loop ends with the hex rendering of the value repeated numBytes times |

Two clients of the driver prove example exchanges. In
`SpiDriver.ClockQueryScenario`, the reply "-SPI0 CLK 1000000" makes the
clock getter return 1000000. In `SpiDriver.BusyBeginScenario`, the reply
"-ERR BUSY" makes `begin` raise RuntimeError, and the next `begin` reads the
next reply. In both, the log holds each command followed by its reply.

## Left out

- The connection layer `binhoComms`, with its reader thread, queues, signal handling and timeouts, is not part of this model. The transport is a scripted queue instead. A read from an exhausted script gives `NoReply`, because what the real reader does when no line arrives is outside this model (binho/comms/comms.py, manager.py).
- `autodetect` and `autodetect_all` are left out: they reflect over `__subclasses__`. Only the per-port acceptance rule they rely on is modelled.
- `all_accepted_devices`, `usb_info`, `__del__`, `close`, `initialize_apis` and the `deviceID`/`firmwareVersion`/`hardwareVersion`/`commandVersion`/`productName`/`commPort`/`inBootloaderMode` properties are left out. They enumerate OS serial ports or forward to the core driver, which is not part of this model.
- `supports_api`, `addIOPinAPI` and `version_warnings` are left out. The first tests dictionary keys while the drivers are stored as attributes. The other two only store a driver object or return None.
- binho/commands/binho_gpio.py is command-line plumbing (argument parsing, printing, exit codes) and is not modelled.
- `Text.ParseInt`: it does not model the whitespace, underscores and non-ASCII digits that Python's `int()` also accepts. It accepts only an optional sign and ASCII digits.
- `Hex.FromHex`: it does not model Python versions before 3.7, which skip only spaces. Every ASCII whitespace character is skipped.
- `SpiDriver.BinhoSpiDriver.Transfer`: it takes the text that `str(data)` renders rather than a Python object, because Python's `str()` of arbitrary objects is not modelled.
- `SpiDriver.BinhoSpiDriver.WriteToReadFrom`: its data values are bytes in 0..255. Python would format a larger value with more digits and a negative one with a sign.
- `SpiDriver.BinhoSpiDriver.SetBitOrder`: its order is a string. Python raises TypeError when concatenating a non-string, and that case is not modelled.
- `Device.BinhoApi.constructor`: it requires a "port" key where Python raises KeyError, because a constructor cannot return an error. The comms object and the driver objects it creates are not modelled.
- `Device.SelectPort`: the manager's device-id lookup is a total function. A lookup that raises is not modelled, because the manager's code is outside this model (binho/comms/manager.py).
- `SpiDriver.BinhoSpiDriver.SetClockFrequency`, `SpiDriver.BinhoSpiDriver.SetMode` and `SpiDriver.BinhoSpiDriver.SetBitsPerTransfer`: their argument is an int. Python's `str()` accepts any value (a float `1e6` would be sent as "1000000.0"), and that case is not modelled.
