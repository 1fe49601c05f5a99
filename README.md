# ESP8266 MAC reader: a Dafny model of `main.go`

`main.go` of esp8266tool drives an ESP8266's serial bootloader. It resets the chip into
the bootloader by toggling the DTR and RTS lines (`Sync`). It sends opcode-tagged commands
and waits for the reply whose opcode matches (`Exec`). It reads three OTP registers and
turns their 4-byte values into the factory MAC address (`ComputeMacAddr`).

This project models those three pieces and proves their properties:

- `bytes.dfy` (`Bytes`): Go's `byte`, the `[4]byte` register word, and an `Option` type.
- `hex.dfy` (`Hex`): `hex.EncodeToString` on a single byte, with a decoder as its inverse.
- `mac_addr.dfy` (`MacAddr`): the byte selection and the formatting loop of `ComputeMacAddr`.
  It also holds a parser that inverts the format, so each address names exactly one set of six bytes.
- `exchange.dfy` (`Exchange`): the receive loop of `Exec`. The framed reader becomes the
  finite sequence of results its reads return, in order. A sequence that runs out before a
  reply means the loop is still reading (`Waiting`).
- `device.dfy` (`Device`): class `Esp8266`. It holds the serial options record (`serialOpts`)
  and a ghost log of every record applied to the port. `SetDTR`, `SetRTS` and `Sync` work on it.

`Exec` skips every read error with `continue` (main.go:66-68), device errors included. The
model does the same.

In Go, `Exec` is a method of the session. The receive loop reads no session field other than
the framed reader, so here it is a module-level method over the read results.

## Model

| member | source | states |
|---|---|---|
| Hex.EncodeByte | main.go:133 | the hex text of one byte is two lowercase hex digits, high nibble first, whose base-16 value is the byte |
| Hex.DecodeEncode | main.go:133 | decoding the two-character text of a byte gives back that byte |
| Hex.EncodeDecode | main.go:133 | every lowercase two-digit pair is the encoding of exactly the byte it decodes to |
| Hex.EncodeInjective | main.go:133 | distinct bytes have distinct hex text |
| MacAddr.MacBytes | main.go:121-128 | the contract states that the MAC has six bytes; the body is the selection literal mac3[2], mac3[1], mac3[0], mac1[1], mac1[0], mac0[3] |
| MacAddr.MacString | main.go:129-134 | joining n > 0 hex pairs with ':' gives 3n - 1 characters |
| MacAddr.MacStringSnoc | main.go:129-134 | one more loop step appends ':' and the next byte's pair to the string built so far |
| MacAddr.MacStringAt | main.go:129-134 | pair k of the string is the hex of byte k, and a ':' follows every pair except the last |
| MacAddr.MacStringShape | main.go:130-133 | ':' appears exactly at positions 2, 5, 8, ...; every other character is a lowercase hex digit |
| MacAddr.ParseMacString | main.go:129-134 | parsing a formatted non-empty byte sequence returns those bytes |
| MacAddr.MacStringParse | main.go:129-134 | any string that parses is the formatted form of what it parses to |
| MacAddr.MacStringInjective | main.go:129-134 | two different byte sequences never format to the same string |
| MacAddr.MacAddrDependsExactly | main.go:121-134 | two inputs give the same MAC string if and only if they agree on mac0[3], mac1[0], mac1[1], mac3[0], mac3[1] and mac3[2]; all other bytes are irrelevant |
| MacAddr.ComputeMacAddr | main.go:120-136 | the result is 17 characters long; ':' appears exactly at positions 2, 5, 8, 11, 14; all other characters are lowercase hex; pair k is the hex of MAC byte k |
| MacAddr.FactoryExample | main.go:120-135 | mac0=[_,_,_,0xAA], mac1=[0xBB,0xCC,_,_], mac3=[0xDD,0xEE,0xFF,_] give "ff:ee:dd:cc:bb:aa" |
| Exchange.ReceiveFrom | main.go:64-76 | as written: the loop accepts the first non-empty frame that has no read error and has byte 1 equal to the opcode; every earlier read is an error, an empty frame or a mismatch; a one-byte frame reached first panics; if nothing qualifies, it keeps waiting |
| Exchange.Exec | main.go:54-79 | the receive loop as written ends exactly as ReceiveFrom says; the accepted frame is the one handed to NewResponse |
| Exchange.ReplyFrom | main.go:64-76 | corrected: the loop accepts the first frame of at least two bytes whose byte 1 is the opcode; nothing before it is a reply; it never panics |
| Exchange.ExecChecked | main.go:54-79 | the corrected receive loop ends exactly as ReplyFrom says |
| Exchange.AgreeWithoutShortFrames | main.go:69-72 | on streams with no one-byte frame, the loop as written and the corrected loop give the same outcome |
| Exchange.ShortFrameBeforeReply | main.go:69-72 | a one-byte frame ahead of a valid reply makes the loop as written panic; the corrected loop accepts the reply |
| Exchange.ReceiveSkipsNoise | main.go:66-74 | in the loop as written, read errors, empty frames and mismatched opcodes never end the loop; the outcome is the one after them |
| Exchange.ReplySkipsNoise | main.go:66-74 | in the corrected loop, every read that is not a reply, one-byte frames included, is skipped; the outcome is the one after them |
| Exchange.ReceiveIgnoresLaterReads | main.go:64-76 | in the loop as written, once a read has ended the loop (a reply or a panic), later reads cannot change the outcome |
| Exchange.ReplyIgnoresLaterReads | main.go:64-76 | in the corrected loop, once a reply is accepted, later reads cannot change the outcome |
| Exchange.OpcodeMatching | main.go:72-75 | of frames for opcodes x, y, z and then op, exactly the op frame is accepted, by the loop as written and by the corrected one |
| Exchange.SilenceKeepsWaiting | main.go:65-68 | any number of read errors, such as timeouts, leaves both loops still waiting and never yields a result to the caller |
| Device.LinePairs | main.go:100-117 | lists the (DTR, RTS) pair of each applied record, in order |
| Device.Esp8266.constructor | main.go:37-45 | a new session holds the given device and baud rate; its options are the raw defaults with the bit rate set to the baud rate; nothing has been applied |
| Device.Esp8266.Apply | main.go:101 | applying appends the whole current options record to the port's log |
| Device.Esp8266.SetDTR | main.go:99-107 | only DTR changes (on or off as asked); RTS and bit rate keep their values; the updated record is applied |
| Device.Esp8266.SetRTS | main.go:109-117 | only RTS changes (on or off as asked); DTR and bit rate keep their values; the updated record is applied |
| Device.Esp8266.Sync | main.go:88-97 | applies exactly four records, in order: (DTR off, previous RTS), (off, on), (on, on), (on, off); the bit rate is unchanged; then runs the receive loop of Exec as written, so its outcome is ReceiveFrom's, a panic on a one-byte frame included |

## Left out

- Connect (main.go:42-51): opening the serial device and creating the logger and the framed reader are I/O. The constructor models only the options Connect sets: the raw defaults (a parameter) with the bit rate set to the baud rate (main.go:44-45). The mode field is not modelled.
- Device.Esp8266.Apply: the hardware call is not modelled. Applying only appends the record to a ghost log, and it cannot fail.
- Options: only the bit rate, DTR and RTS fields of the record are modelled. The other fields of the library's type are not.
- The transmitter goroutine and the shared `done` flag (main.go:55-61) are concurrency. Only the receiver is modelled, as a sequential loop.
- The 100 ms sleeps and the 3-second read deadline (main.go:59, 65, 91, 95) are timing. A timed-out read is one error in the result sequence.
- Exchange.Exec: the loop is unbounded in Go. The model runs over a finite sequence of read results; `Waiting` stands for a loop that has not finished yet.
- The framed reader and writer, `Command.ToBytes`, `NewReadRegisterCommand`, `NewSyncCommand` and `NewResponse` belong to the fluepke-common package. That package is not part of this model. Commands appear only as their opcode byte, and `Exec` returns the raw frame that would be handed to `NewResponse`.
- ReadRegister (main.go:82-85) only builds a command in that package and calls `Exec`, so nothing of its own is left to model.
- `main` and the CLI wiring and logging (main.go:138-187) are plumbing.

## Findings

| source | as written | input that shows it | evidently intended | confidence | as-written member | corrected member |
|---|---|---|---|---|---|---|
| main.go:69-72 | the guard only skips empty frames (`len(rawData) == 0`), then reads `rawData[1]` | one frame of a single byte, such as `[op]`, causes an index-out-of-range panic before any reply is read | skip every frame shorter than two bytes, like any other non-reply | medium, not executed | Exchange.ShortFrameBeforeReply (on Exchange.ReceiveFrom / Exchange.Exec) | Exchange.ReplyFrom / Exchange.ExecChecked |

`Sync` runs the loop as written (main.go:96), so it inherits the panic. The corrected loop is `Exchange.ExecChecked`.
