# usb-gamepad-reader in Dafny

A model of `gamepad-reader.py`, a script that reads the interrupt-IN reports
of a USB gamepad (vendor 0x045e, product 0x028e) and decodes them. The model
has four parts, one module each, plus the shared `Basics` module:

- `Decoder` (`decoder.dfy`): `process_data` and its nested
  `interpret_stick_axis`. These cover the cross-key table over the low nibble of
  byte 2, the button tables of bytes 2 and 3, the stick formula over four
  16-bit readings (low byte first), the two trigger ratios and the special
  buttons of byte 14. `Decode` is the decoder as a function. `ProcessData` is
  the same decoder written the way the script works: it appends buttons in
  `for` loops and gives up early where a short report makes an index raise.
  The outcome is one of three:
  - `Skipped`: the data is empty.
  - `Decoded`: a full report.
  - `Truncated`: names the section whose indexing raised. The script's
    handler catches that error and carries on.
- `Endpoints` (`endpoints.dfy`): how `setup_device` picks the endpoint. The
  test it applies comes from section 9.6.6 of the USB 2.0 specification. The
  address must have direction bit 0x80 set (IN), and `bmAttributes & 3` must
  be 3 (interrupt). The scan goes interface by interface and keeps the last
  match.
- `Polling` (`polling.dfy`): the loop of `read_input` as the function `Poll`
  over the sequence of answers the reads give. An answer is data, a timeout,
  a USB error with its error number, or an interrupt standing for Ctrl+C.
- `Reader` (`reader.dfy`): the `GamePadReader` class with the fields
  `device` and `endpoint` that `find_device` and `setup_device` update.
  `ReadInput` holds the polling loop and calls `ProcessData`. `RunReader`
  runs find, setup and read in order, as `main` does, and gives the exit
  code.

Points where the script's behaviour is easy to misread:

- Stick axes use an offset formula over the unsigned 16-bit value. Values
  0..0x0080 map to -100..0 and 0xff7f..0xffff map to 0..100. Everything in
  between reads as 0, including 0x7fff and 0x8000.
- The cross-key is one label out of an 8-entry table over the low nibble of
  byte 2. 3 shows as Up-Left and 5 as Down-Right, and 10 has no entry.
  `CrossKeyAgainstBits` states where the table and a flag-by-flag reading
  differ.
- Every suitable endpoint of the scan overwrites the one kept before it, so
  the endpoint kept is the last suitable one.
- The report `[_, _, 0x01, 0x10, 0x80, 0x40, 0, …, 0, 0x20]` decodes to
  cross-key Up, buttons [A], triggers 128/255 and 64/255, and Turbo. Its
  all-zero stick bytes read as -100 on every axis (`DecodeExample`).
- Triggers are the ratios `data[4]/255` and `data[5]/255` in [0, 1]. The
  script shows them as percentages only when it formats them.
- A reader whose device was cleared after its endpoint was set raises at its
  first read, shows nothing and releases nothing (`NoDevice`).

## Model

| member | source | states |
|---|---|---|
| `Decoder.LowNibble` | gamepad-reader.py:113 | `data[2] & 0x0F` is below 16 and equals the byte modulo 16 |
| `Decoder.CrossKeyOf` | gamepad-reader.py:103-115 | the cross-key table looked up with the low nibble; characterised by `CrossKeyDomain`, `CrossKeyInjective` and `CrossKeyAgainstBits` |
| `Decoder.CrossKeyDomain` | gamepad-reader.py:103-115 | a cross-key is shown exactly for nibbles 1, 2, 4, 8, 9, 6, 3, 5; nibbles 0, 7 and 10..15 show none |
| `Decoder.CrossKeyInjective` | gamepad-reader.py:103-112 | no two nibbles show the same cross-key |
| `Decoder.CrossKeyAgainstBits` | gamepad-reader.py:103-112 | the table matches a flag-by-flag reading (bit 0 up, 1 down, 2 left, 3 right) on 1, 2, 4, 8, 9, 6 and on no other nibble |
| `Decoder.Matching` | gamepad-reader.py:133-139 | one table's append loop as a function; characterised by `MatchingMembers`, `MatchingOrdered` and `MatchingCongruent` |
| `Decoder.Pressed` | gamepad-reader.py:118-139 | the byte-2 list followed by the byte-3 list; characterised by `PressedIffBitSet`, `PressedInTableOrder` and `PressedIgnoresOtherBits` |
| `Decoder.MatchingMembers` | gamepad-reader.py:134-139 | a name is appended by the table loop exactly when some entry with that name has its bit set |
| `Decoder.MatchingOrdered` | gamepad-reader.py:134-139 | the loop keeps table order: increasing ranks in the table give increasing ranks in the list |
| `Decoder.MatchingCongruent` | gamepad-reader.py:134-139 | two bytes that agree on every table bit give the same list |
| `Decoder.TablesAgreeWithButtons` | gamepad-reader.py:118-130 | each table entry's bit and byte are the ones the per-button reference (`InByte2`, `Mask`, `Rank`) gives, and entries come in the order Start, Select, L1, R1, Mode, A, B, X, Y |
| `Decoder.PressedIffBitSet` | gamepad-reader.py:118-139 | a button is listed exactly when its bit is set: byte 2 0x10/0x20 for Start/Select, byte 3 0x01, 0x02, 0x04, 0x10, 0x20, 0x40, 0x80 for L1, R1, Mode, A, B, X, Y |
| `Decoder.PressedInTableOrder` | gamepad-reader.py:133-139 | the list is in table order, has no duplicates and at most nine entries |
| `Decoder.PressedIgnoresOtherBits` | gamepad-reader.py:118-139 | bit 0x08 of byte 3 and the bits of byte 2 outside 0x30 never change the list |
| `Decoder.PressedButtons` | gamepad-reader.py:133-139 | the two append loops build exactly the list of pressed buttons |
| `Decoder.Word` | gamepad-reader.py:150 | shifting the high byte left by 8 and or-ing in the low byte gives `high * 256 + low` |
| `Decoder.Axis` | gamepad-reader.py:150-161 | every axis value lies in [-100, 100] |
| `Decoder.StickAxis` | gamepad-reader.py:144-161 | `interpret_stick_axis` over a low and a high byte: `Axis` of `Word`, so its value lies in [-100, 100] |
| `Decoder.AxisLandmarks` | gamepad-reader.py:150-161 | 0 gives -100, 0x0080 and 0xff7f give 0, 0xffff gives 100 |
| `Decoder.AxisNeutralBand` | gamepad-reader.py:150-161 | every value from 0x0080 to 0xff7f gives 0 |
| `Decoder.AxisSign` | gamepad-reader.py:150-161 | negative exactly below 0x0080, positive exactly above 0xff7f, -100 only at 0 and 100 only at 0xffff |
| `Decoder.AxisMonotone` | gamepad-reader.py:150-161 | the formula never decreases as the value grows over 0..0xffff |
| `Decoder.TriggerRatio` | gamepad-reader.py:174-175 | a trigger ratio lies in [0, 1] |
| `Decoder.TriggerLandmarks` | gamepad-reader.py:174-175 | byte 0 gives 0, byte 255 gives 1, and the ratio strictly increases with the byte |
| `Decoder.SpecialButtons` | gamepad-reader.py:178-182 | Turbo is listed exactly when bit 0x20 is set and Clear exactly when bit 0x40 is; both together come as [Turbo, Clear] |
| `Decoder.SpecialIgnoresOtherBits` | gamepad-reader.py:178-182 | the bits of byte 14 outside 0x60 are ignored |
| `Decoder.Decode` | gamepad-reader.py:91-190 | `process_data` as a function of the report; characterised by `DecodeCases`, `TruncatedAtFirstShortSection`, `DecodeReadsBytesTwoToFourteen` and `DecodedInRange` |
| `Decoder.DecodeCases` | gamepad-reader.py:91-190 | empty data is skipped, 15 bytes or more decode, 1 to 14 bytes fail and are caught |
| `Decoder.TruncatedAtFirstShortSection` | gamepad-reader.py:101-190 | a short report fails in the first section, in evaluation order, that indexes past its end; the triggers never fail |
| `Decoder.DecodeReadsBytesTwoToFourteen` | gamepad-reader.py:113-179 | bytes 0 and 1 and everything after byte 14 never affect the decoded report |
| `Decoder.DecodedInRange` | gamepad-reader.py:133-182 | every decoded report has sticks in [-100, 100], triggers in [0, 1], at most nine distinct buttons and at most two special buttons |
| `Decoder.ExamplePressed` | gamepad-reader.py:118-139 | byte 2 = 0x01 and byte 3 = 0x10 give exactly [A]: 0x01 sets no Start or Select bit |
| `Decoder.DecodeExample` | gamepad-reader.py:101-182 | one concrete report decodes to cross-key Up, [A], sticks at -100, triggers 128/255 and 64/255, [Turbo] |
| `Decoder.ProcessData` | gamepad-reader.py:91-190 | the imperative decoder produces exactly the decoder's outcome |
| `Endpoints.Suitable` | gamepad-reader.py:69-71 | the endpoint test: direction IN and transfer type interrupt |
| `Endpoints.Flatten` | gamepad-reader.py:61-63 | the scan order of the nested loops; characterised by `FlattenOne`, `FlattenConcat` and `FlattenHoldsEveryEndpoint` |
| `Endpoints.LastSuitable` | gamepad-reader.py:61-72 | the endpoint the scan keeps; characterised by `SelectedIsSuitable`, `SelectedIsLast`, `NoneSelectedIffNoneSuitable` and `LaterMatchWins` |
| `Endpoints.SelectedIsSuitable` | gamepad-reader.py:69-72 | a selected endpoint was scanned, has direction bit 0x80 set and `bmAttributes & 3 == 3`: OUT or non-interrupt endpoints are never selected |
| `Endpoints.NoneSelectedIffNoneSuitable` | gamepad-reader.py:61-77 | nothing is selected exactly when no scanned endpoint is suitable |
| `Endpoints.SelectedIsLast` | gamepad-reader.py:61-72 | the selected endpoint is at a suitable position after which no suitable endpoint follows |
| `Endpoints.LaterMatchWins` | gamepad-reader.py:70-72 | a suitable endpoint later in the scan replaces any earlier choice |
| `Endpoints.FlattenConcat` | gamepad-reader.py:61-63 | scanning two lists of interfaces in turn is scanning their concatenation |
| `Endpoints.FlattenOne` | gamepad-reader.py:62-63 | one interface is scanned as exactly its endpoints, in order; with `FlattenConcat` this fixes the scan as the interfaces' endpoints concatenated in order, nothing more |
| `Endpoints.FlattenHoldsEveryEndpoint` | gamepad-reader.py:61-63 | endpoint j of interface i is scanned at the number of endpoints of the earlier interfaces, plus j |
| `Polling.Poll` | gamepad-reader.py:201-221 | the read loop over a sequence of answers; characterised by `NoStopKeepsPolling`, `FirstStopEndsPolling`, `TimeoutsNeverStop` and `EmptyDataIsNotDecoded` |
| `Polling.PayloadsAppend` | gamepad-reader.py:207-208 | each non-empty data answer contributes its bytes once, at its place, and no other answer contributes |
| `Polling.TimeoutsNeverStop` | gamepad-reader.py:209-213 | a timeout or a USB error with number 110, anywhere, leaves the run unchanged |
| `Polling.EmptyDataIsNotDecoded` | gamepad-reader.py:207-208 | an empty answer, anywhere, leaves the run unchanged |
| `Polling.NoStopKeepsPolling` | gamepad-reader.py:201-218 | without an interrupt or other USB error the loop keeps running and decodes every non-empty answer once, in order |
| `Polling.FirstStopEndsPolling` | gamepad-reader.py:201-221 | the first interrupt or other USB error ends the loop, later answers are never read, and exactly the non-empty answers before it were decoded |
| `Polling.PollExample` | gamepad-reader.py:200-221 | timeout, timeout, report, fatal error: one outcome shown and the loop ends on the error |
| `Reader.AfterScan` | gamepad-reader.py:61-75 | the endpoint after the scan: the last suitable one, else the one held before; `SetupDevice` is proved to compute it |
| `Reader.GamePadReader.constructor` | gamepad-reader.py:9-22 | a new reader has the fixed vendor and product ids, records whether a backend was obtained, and has no device or endpoint |
| `Reader.GamePadReader.FindDevice` | gamepad-reader.py:24-44 | without a backend, nothing is searched and the result is false; otherwise the device is what the search returned and the result says whether one was found |
| `Reader.GamePadReader.Scan` | gamepad-reader.py:61-72 | the nested loops leave the endpoint as `AfterScan` of the interfaces visited |
| `Reader.GamePadReader.SetupDevice` | gamepad-reader.py:46-89 | without a device or on an error before the scan, false and the endpoint unchanged; on an error part-way through the scan, false with the endpoint `AfterScan` of what was visited; otherwise the endpoint becomes the last suitable one, or stays as it was if none is suitable, and the result says whether an endpoint is set |
| `Reader.GamePadReader.ReadInput` | gamepad-reader.py:192-228 | without an endpoint nothing is read or released; with an endpoint but no device the first read raises, nothing is shown and nothing released; otherwise the run is the polling loop's, and a release is attempted exactly when the loop was left |
| `Reader.RunReader` | gamepad-reader.py:230-241 | exit code 1 exactly when there is no backend, no device, a setup error (before or during the scan) or no suitable endpoint; otherwise exit code 0 stands for setup having succeeded and reading begun, and the run is the polling loop's |

## Left out

- The libusb path check and `get_backend` (gamepad-reader.py:15-22) are not modelled. Whether a backend was obtained is the constructor's boolean input.
- `usb.core.find` is not modelled. Its result is an input of `FindDevice`.
- `set_configuration` and `get_active_configuration` are not modelled. Their
  answer is the device's `Configuration` input: a full list of interfaces,
  an error before the scan (`ConfigurationError`), or an error part-way
  through it after the interfaces and endpoints in `scanned` were visited
  (`ScanError`). Any exception during setup is one of the two errors.
- Reads are not modelled. Their answers are the input sequence of
  `ReadEvent`s, and the read's arguments (endpoint address, max packet size,
  100 ms timeout) are not recorded, so `Endpoint` holds only the address
  and attributes the scan tests.
- Release is recorded only as an attempt, because the script swallows
  whatever `release_interface` raises.
- Output is not modelled: printing, the clear-screen code, hex dumps, number
  formatting and tracebacks. This includes the sections a short report shows
  before its index error: `Truncated` names only the section that failed.
- Float rounding is not modelled. Sticks and triggers are exact reals, so the
  `-0.0` the script prints for axis value 0x0080 has no counterpart.
- `time.sleep(0.1)` is not modelled; it is timing only.
- The loop over reads never ends on its own, but the model gets a finite
  sequence of answers. `Running` means the answers given so far have not
  stopped the loop. In that case the `finally` clause has not run, so no
  release is attempted.
- An interrupt is not modelled asynchronously. It is an answer, so one that
  arrives while a report is decoded counts as arriving at the next read.
- Exceptions in the read loop other than USB errors, interrupts and the read
  on a missing device (`NoDevice`) would propagate out of the loop; they are
  not modelled.
- Endpoint objects are assumed to be always truthy in `if not self.endpoint`.
