# Envoy Modbus TCP register decoders

A Dafny model of the decoding core of `mosbusTcpEnvoy.py`, a poller that reads
holding registers from an Enphase Envoy gateway over Modbus TCP. The two
readers of that script are modelled without their transport:

- the **identity read** (`read_sunspec_block`) takes the window of registers
  read from 40000 and yields the SunSpec marker, the model id and length, and
  three ASCII text fields (manufacturer, model, Envoy version), each read only
  when the window is long enough, and fails when a text field holds a byte
  that is not ASCII;
- the **measurement read** (`read_measurements`) walks the window read from
  40070 and, on the absolute address of each register, reports power (40080,
  raw), voltage (40086) and frequency (40088) scaled by 1/100, echoes a fixed
  list of other addresses, and ignores the rest.

Files, one module each:

- `wrappers.dfy` (`Wrappers`): `Option` and `Result`.
- `registers.dfy` (`Registers`): registers as `bv16`, bytes as `bv8`, the
  transport's answer as `Response` (error or register sequence), and the
  high-byte-then-low-byte unpacking loop with its specification `Unpacked`.
- `text.dfy` (`AsciiText`): ASCII decoding, the cut at the first NUL, the
  per-field text decoder, and the packing used to state the round trip.
- `sunspec.dfy` (`SunSpec`): the identity decoder as a function
  (`IdentityOf`) and as the imperative method the script runs
  (`DecodeIdentityBlock`), the result flag of the identity read, and their
  properties.
- `measurements.dfy` (`Measurements`): the address dispatch, the report as a
  sequence of `Entry(address, kind, raw)`, the decoding loop, the result flag
  of the measurement read, and coverage of the 21-register window.

Design choices:

- Shifts and masks are written on bit-vectors, as the script writes them;
  the 32-bit combination of the marker is a `bv32`, which holds
  `(r0 << 16) | r1` exactly because both registers are below 2^16.
- Log lines are modelled as values: the identity read returns the fields it
  reported (`Identity`, a record of `Option` fields where `None` means "not
  read" and `Some("")` means "read as empty"); the measurement read returns
  the sequence of reported entries.
- Scaled values are exact: `Centi(whole, hundredths)` with
  `whole * 100 + hundredths == raw`.
- A failed ASCII decode is `AsciiError(field, logged)`: the field that
  raised and the fields already reported before the exception returned False.
- The script decodes the whole byte string as ASCII before splitting at the
  first NUL, so a byte of 0x80 or more after the NUL still makes the read
  fail; the model does the same.

## Model

| member | source | states |
|---|---|---|
| `Registers.HighByte` | mosbusTcpEnvoy.py:70 | the high byte of a register is its value divided by 256 |
| `Registers.LowByte` | mosbusTcpEnvoy.py:71 | the low byte of a register is its value modulo 256 |
| `Registers.Join` | mosbusTcpEnvoy.py:69-71 | the register built from two bytes splits back into exactly those bytes (inverse of the unpacking rule) |
| `Registers.JoinSplit` | mosbusTcpEnvoy.py:69-71 | splitting a register into its high and low byte loses nothing |
| `Registers.Unpacked` | mosbusTcpEnvoy.py:67-71 | k registers unpack to exactly 2k bytes |
| `Registers.UnpackedAt` | mosbusTcpEnvoy.py:69-71 | byte 2j of the unpacked form is the high byte of register j and byte 2j+1 its low byte |
| `Registers.UnpackedSnoc` | mosbusTcpEnvoy.py:68-71 | one more visited register appends its high byte and then its low byte |
| `Registers.UnpackRegisters` | mosbusTcpEnvoy.py:67-71 | the byte-collecting loop over registers base..base+k-1 yields exactly their unpacked bytes, 2k of them; it only indexes inside the window its caller's guard guarantees |
| `AsciiText.Chr` | mosbusTcpEnvoy.py:54 | a byte becomes the character whose code is the byte's value |
| `AsciiText.AsciiDecode` | mosbusTcpEnvoy.py:72 | ASCII decoding succeeds exactly when every byte is below 0x80, and then gives one character per byte with that code |
| `AsciiText.UpToNul` | mosbusTcpEnvoy.py:72 | the first piece of the split is a prefix of the text, holds no NUL, and ends at the end of the text or at a NUL |
| `AsciiText.UpToNulUnique` | mosbusTcpEnvoy.py:72 | those three properties determine the piece: it is the longest NUL-free prefix |
| `AsciiText.AsciiWords` | mosbusTcpEnvoy.py:67-72 | the unpacked bytes of a register run are all ASCII exactly when both bytes of every register are |
| `AsciiText.DecodeText` | mosbusTcpEnvoy.py:72 | a text field decodes exactly when every register of it is ASCII; its text then has no NUL, at most two characters per register, character i is the character of unpacked byte i, and it stops at the end of the bytes or at a zero byte |
| `AsciiText.Pair` | mosbusTcpEnvoy.py:67-71 | pairing bytes into registers is undone by the unpacking rule |
| `AsciiText.PackRoundTrip` | mosbusTcpEnvoy.py:66-72 | a NUL-free ASCII string packed into k registers and padded with NULs decodes back to itself |
| `SunSpec.MarkerBytes` | mosbusTcpEnvoy.py:48-54 | the four marker bytes of the 32-bit combination are exactly [r0 high, r0 low, r1 high, r1 low] |
| `SunSpec.MarkerText` | mosbusTcpEnvoy.py:54 | the marker text has four characters, whose codes are the four marker bytes in order |
| `SunSpec.Header` | mosbusTcpEnvoy.py:48-63 | marker, model id and model length are present exactly when the window reaches 2, 3 and 4 registers; no text field is set |
| `SunSpec.IdentityOf` | mosbusTcpEnvoy.py:47-93 | a window shorter than 11 registers always succeeds with just the header fields, and a failure needs a window reaching the manufacturer span; `IdentitySucceeds`, `IdentityGating`, `IdentityFailure` and `TextFieldBounds` prove its remaining properties |
| `SunSpec.SpanWordsDecode` | mosbusTcpEnvoy.py:66-72 | a text field inside the window decodes exactly when every register of its span is ASCII |
| `SunSpec.IdentitySucceeds` | mosbusTcpEnvoy.py:65-102 | the identity decode succeeds exactly when every text field the window is long enough to hold is ASCII |
| `SunSpec.IdentityGating` | mosbusTcpEnvoy.py:48-86 | marker, model id and model length are read exactly when the window reaches 2, 3 and 4 registers; manufacturer, model and version only when it reaches 11, 23 and 49, and on success exactly then |
| `SunSpec.IdentityFailure` | mosbusTcpEnvoy.py:65-102 | a failed decode names the first non-ASCII text field in register order; its span lies in the window, the text fields before it were reported with their decoded values, and no later field was reported |
| `SunSpec.TextFieldBounds` | mosbusTcpEnvoy.py:66-92 | every text field read holds no NUL and has at most 14, 6 and 10 characters |
| `SunSpec.IdentityRoundTrip` | mosbusTcpEnvoy.py:47-93 | a full window whose three spans hold packed strings decodes to a record with all six fields present and those strings as text |
| `SunSpec.DecodeIdentityBlock` | mosbusTcpEnvoy.py:47-93 | the imperative decoder, with its guards and byte loops, computes exactly `IdentityOf` |
| `SunSpec.ReadSunspecBlock` | mosbusTcpEnvoy.py:42-102 | the identity read returns true exactly when the response is not an error and every text field it reads is ASCII; it reports the fields decoded before returning |
| `Measurements.Scaled` | mosbusTcpEnvoy.py:141-147 | a scaled value is whole part and hundredths with hundredths below 100 and whole * 100 + hundredths equal to the raw register |
| `Measurements.Classify` | mosbusTcpEnvoy.py:136-151 | only an address of the list or 40080, 40086, 40088 is dispatched; `ClassifyExclusive` states the exact kind for each |
| `Measurements.ClassifyExclusive` | mosbusTcpEnvoy.py:136-151 | the dispatch branches are disjoint: an address is power, voltage, frequency or another reported register exactly when it is 40080, 40086, 40088 or in the list, and is ignored otherwise |
| `Measurements.Report` | mosbusTcpEnvoy.py:136-151 | one register yields one entry exactly when its address is dispatched, carrying that address, its kind and the raw value, and nothing otherwise |
| `Measurements.LogPrefix` | mosbusTcpEnvoy.py:132-151 | the report of the first i registers holds at most i entries; `LogPrefixFromWindow` and `LogPrefixCovers` state its contents |
| `Measurements.MeasurementLog` | mosbusTcpEnvoy.py:132-151 | the report of a window holds at most one entry per register; `LogFromWindow` and `LogCoversWindow` state its contents |
| `Measurements.LogPrefixFromWindow` | mosbusTcpEnvoy.py:132-151 | the report of the first i registers holds at most i entries, each from one of them at its absolute address with its kind and raw value, in increasing address order |
| `Measurements.LogFromWindow` | mosbusTcpEnvoy.py:132-151 | every entry of the report comes from a register of the window at address start + i with its kind and raw value, and no register is reported twice |
| `Measurements.LogPrefixCovers` | mosbusTcpEnvoy.py:132-151 | every reported register among the first i shows up in their report |
| `Measurements.LogCoversWindow` | mosbusTcpEnvoy.py:132-151 | every register of the window whose address is dispatched shows up in the report with its kind and raw value |
| `Measurements.QuietRun` | mosbusTcpEnvoy.py:136-151 | registers at addresses no branch matches add nothing to the report |
| `Measurements.FullWindowLog` | mosbusTcpEnvoy.py:116-151 | a full 21-register response from 40070 reports exactly 40070, 40071, power at 40080, 40081, 40082, 40084, voltage at 40086 and frequency at 40088, in that order |
| `Measurements.ListedAddressesUnreached` | mosbusTcpEnvoy.py:116-150 | a response of at most 21 registers from 40070 never reports 40091, 40092 or 40096, although they are listed |
| `Measurements.DecodeMeasurements` | mosbusTcpEnvoy.py:128-151 | the decoding loop emits exactly the report of the window, and leaves voltage and frequency as the scaled values at 40086 and 40088 when the window reaches them, absent otherwise |
| `Measurements.ReadMeasurements` | mosbusTcpEnvoy.py:122-157 | the measurement read returns true exactly when the response is not an error, with the report of the window from 40070 |

## Left out

- Opening, using and closing the Modbus TCP client (lines 32-33, 40, 104,
  112-113, 120, 162): foreign network calls. The response is an input of
  type `Response`; a failed connection and an exception raised by the
  request both return False like an error response, so they are folded into
  `ErrorReply`.
- `log_message` (lines 22-28): file appending, timestamps and console output.
  The reported values are returned instead; the fixed log lines (connection
  notices, "read N registers", separators) are not modelled. Logging is
  assumed never to raise: in the script a failed log write inside the `try`
  reaches the handler at lines 100-102 or 158-160 and the read returns False,
  so `ReadSunspecBlock` and `ReadMeasurements` returning true for every
  non-error response (with ASCII text fields) holds only under that
  assumption.
- The start-up identity read and the polling loop with its 5-second sleep
  (lines 168-178): timing plumbing.
- Floating-point division and two-decimal formatting of voltage and
  frequency (lines 141-147): modelled as exact hundredths.
- `energy_total` (line 128): initialised and never used, so it has no
  counterpart.
- Behaviour this script does not have is not modelled: sentinel filtering of
  0, 32768, 65534 and 65535; 32-bit pairing of 40070/40071 and 40091/40092;
  the wiring-type enumeration; signed power; a 27-register window; and a
  placeholder string for a malformed text field (the script instead fails
  the whole identity read).
