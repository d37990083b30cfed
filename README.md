# PiSugar BLE wifi configuration, modelled in Dafny

The PiSugar daemon publishes a Bluetooth LE GATT service through BlueZ. A
phone writes `key%&%ssid%&%password` to it, and the daemon applies the
ssid and password to the Raspberry Pi's wifi client. This project models
the daemon's logic in `pisugar_wifi_config/__init__.py` and proves
properties of that model:

- **Credential messages** (`credentials.dfy`, module `Credentials`):
  - `parse_and_set_wifi` splits the text on `%&%` the way Python's
    `str.split` does. It applies the credentials only when there are
    exactly three fields.
  - `InputChrc.WriteValue` decodes one write as strict UTF-8 and parses
    it.
  - The helpers are `text.dfy` (`find`, `split`, `join`, `endswith`,
    `str(n)`) and `utf8.dfy` (a strict UTF-8 decoder and encoder with both
    round trips).
- **Segmented input** (`reassembly.dfy`, module `Reassembly`):
  - `InputSepChrc` is a class holding the byte buffer and the time of the
    last write. Its `WriteValue` is proved against the pure step
    `SepWrite`.
  - Lemmas over sequences of writes cover three cases: a message cut into
    chunks, a pause of more than a second, and two messages in a row.
- **GATT object tree** (`gatt.dfy` and `tree.dfy`, modules `Gatt` and
  `GattTree`):
  - `Application`, `Service`, `Characteristic` and `Descriptor` are classes
    with append-only child lists.
  - Their object paths, property dictionaries and `GetAll` are modelled.
  - `GetManagedObjects` is the source's nested loop, proved equal to a
    depth-first flattening into a dictionary.
  - When every child sits at its own index, no two objects share a path.
- **The PiSugar service** (`pisugar.dfy`, module `PiSugar`):
  - eight characteristics and two descriptors, with their UUIDs, flags
    and read values;
  - the constructors that build the application;
  - the eleven objects BlueZ receives.
- **Notify flags** (`notify.dfy`, module `Notify`): `StartNotify` and
  `StopNotify` of the wifi-name and IP-address characteristics, and the
  one poller thread each of them owns.
- **Advertisement** (`advertising.dfy`, module `Advertising`): the
  optional fields, the `add_*` methods, `get_properties`, `GetAll` and
  the PiSugar advertisement.
- **The supplicant configuration** (`wpaconfig.dfy`, module `WpaConfig`):
  `set_wifi` formats a template with Python's `str.format`. The model
  covers the forms of `str.format` that the template uses, and shows that
  the template as written always raises (see "## Findings").
- **Stopping the advertisement** (`daemon.dfy`, module `Daemon`): the
  decision whether `main` starts the timer thread, and the decision
  whether it unregisters the advertisement after its main loop ends.

Timestamps (`time.time()`) are inputs of type `real`. The device-model
file's contents is an input. A `set_wifi` call is represented by the
`(ssid, password)` pair it is called with, and stands for the call only:
the model does not claim that the call changes the wifi configuration.

The model follows the code as written, including these behaviours:

- **The buffer after a parse.** `InputSepChrc.WriteValue` assigns the
  text before `&#&` to a local variable
  (`pisugar_wifi_config/__init__.py:657`), so the buffer keeps the whole
  message after it is parsed.
  - A second message written within a second re-applies the first one
    (`Reassembly.SecondMessageWithinGapReappliesFirst`).
  - So does an empty write within a second
    (`Reassembly.EmptyWriteReappliesMessage`).
- **When the buffer exists.** The constructor creates the empty buffer and
  takes the construction time as the time of the last write
  (`pisugar_wifi_config/__init__.py:638-641`).
- **How often the advertisement is torn down.** The timer thread
  (`pisugar_wifi_config/__init__.py:811-813`) and `main`'s last test
  (`pisugar_wifi_config/__init__.py:825-827`) measure time from different
  starts. The advertisement is unregistered at most once, and not at all in
  two cases (`Daemon.ExactlyOneStopOutsideWindow`, `Daemon.NoneRaises`):
  - the main loop ends in the short window between the two notions of
    "time is up";
  - `-t` is given without a value, so the comparison at line 826 raises
    `TypeError`.
- **Resubscribing.** Two `StartNotify` calls in a row start the poller
  once. Subscribing again after an unsubscription calls `start()` on the
  same thread object (`pisugar_wifi_config/__init__.py:484-489`), which
  raises `RuntimeError` after the flag is set again (`Notify.RestartFails`).
  - The poller checks the flag only at the top of each pass, after a sleep
    of 3 or 5 seconds (`pisugar_wifi_config/__init__.py:457-470`).
  - If it had not yet seen the flag cleared, it keeps running and serves
    the flag again. Otherwise it has ended, and no poller serves the flag.
  - The model keeps the flag and whether the thread was started; it does
    not model the thread's timing.
- **Credentials free of `%&%`.** An ssid that holds no `%&%` can still be
  cut short: one ending in `%&` loses those characters, and the password
  gains them (`Credentials.SsidFreeOfSepIsNotEnough`). The exact condition
  is `Text.Clean` (`Credentials.CleanForSep`).

## Model

| member | source | states |
|---|---|---|
| Text.Find | pisugar_wifi_config/__init__.py:592 | `str.find`: the answer is an occurrence of `sep` with none before it, and there is no answer exactly when `sep` does not occur |
| Text.Split | pisugar_wifi_config/__init__.py:592 | `str.split(sep)` returns at least one field, no field contains `sep`, joining the fields with `sep` gives back the input, and every field but the last is clean, so each split happens at the leftmost remaining occurrence |
| Text.EndsWith | pisugar_wifi_config/__init__.py:655 | `str.endswith(suffix)` holds exactly when the text is some prefix followed by `suffix` |
| Text.SplitJoin | pisugar_wifi_config/__init__.py:592 | splitting fields joined by `sep` gives the fields back, provided no separator straddles a field boundary |
| Text.SplitFree | pisugar_wifi_config/__init__.py:592 | text without the separator splits into itself alone |
| Text.SplitHeadIsClean | pisugar_wifi_config/__init__.py:657 | when the separator occurs, the first field ends exactly at its first occurrence |
| Text.NatToString | pisugar_wifi_config/__init__.py:217 | `str(index)` is a non-empty string of decimal digits, one digit exactly below 10 |
| Text.NatToStringInjective | pisugar_wifi_config/__init__.py:217 | different indices give different strings |
| Utf8.Encode | pisugar_wifi_config/__init__.py:395 | `str.encode()` turns each character into one to four bytes, and only the empty text into no bytes |
| Utf8.Decode | pisugar_wifi_config/__init__.py:613 | a successful `decode('utf-8')` gives one character per one to four bytes |
| Utf8.DecodeEncode | pisugar_wifi_config/__init__.py:612-614 | `decode('utf-8')` reads back every encoded string |
| Utf8.EncodeDecode | pisugar_wifi_config/__init__.py:612-614 | bytes that decode are exactly the encoding of the decoded text |
| Utf8.EncodeAppend | pisugar_wifi_config/__init__.py:651 | the encoding of a concatenation is the concatenation of the encodings |
| Utf8.DecodeEncodedPrefix | pisugar_wifi_config/__init__.py:653-655 | a decodable prefix of an encoded text decodes to a prefix of that text, and to a strictly shorter one unless it is the whole encoding |
| Credentials.ParseAndSetWifi | pisugar_wifi_config/__init__.py:591-599 | `set_wifi` is called iff the split has exactly three fields; the message is then `key SEP ssid SEP password` with a clean key and a clean ssid, and neither ssid nor password contains `SEP`, which fixes the ssid and password as fields 1 and 2 of the split |
| Credentials.CleanForSep | pisugar_wifi_config/__init__.py:53 | a field stays whole when followed by `%&%` iff it contains no `%&%` and does not end in `%&` |
| Credentials.ParseWellFormed | pisugar_wifi_config/__init__.py:591-599 | a message built from clean key and ssid and a separator-free password applies exactly that ssid and password |
| Credentials.KeyIgnored | pisugar_wifi_config/__init__.py:596 | the key field never affects the outcome |
| Credentials.SsidFreeOfSepIsNotEnough | pisugar_wifi_config/__init__.py:592-598 | ssid `a%&` contains no `%&%`, yet the message applies ssid `a` and password `&%p` |
| Credentials.InputWriteValue | pisugar_wifi_config/__init__.py:611-617 | a write that is not UTF-8 applies nothing; otherwise it is exactly `parse_and_set_wifi` of the decoded text |
| Credentials.InputWriteWellFormed | pisugar_wifi_config/__init__.py:611-617 | a UTF-8 encoded well-formed message applies its credentials in one write |
| Credentials.InputWriteOnlyWellFormed | pisugar_wifi_config/__init__.py:611-617 | every write that applies credentials is the encoding of `key SEP ssid SEP password` for those credentials |
| Reassembly.CompletedMessage | pisugar_wifi_config/__init__.py:653-657 | a message comes out only of a buffer that decodes and ends with `&#&`, and it holds no `&#&` |
| Reassembly.Triggered | pisugar_wifi_config/__init__.py:653-658 | a buffer makes a `set_wifi` call only when it completes a message with exactly three fields |
| Reassembly.CompletedMessageSpec | pisugar_wifi_config/__init__.py:653-657 | a buffer yields a message iff it decodes and ends with `&#&`; the message is the text before the first `&#&` |
| Reassembly.SepWrite | pisugar_wifi_config/__init__.py:643-660 | the buffer is emptied before appending iff more than one second has passed (strict); it then ends with the written bytes, the last-write time becomes `now`, and a parse happens only for a complete buffer |
| Reassembly.InputSepChrc.constructor | pisugar_wifi_config/__init__.py:638-641 | empty buffer, last-write time is the construction time, nothing applied |
| Reassembly.InputSepChrc.WriteValue | pisugar_wifi_config/__init__.py:643-660 | new buffer and time as `SepWrite`; the applied log grows by the parse result, if any; a decode failure keeps the buffer |
| Reassembly.Run | pisugar_wifi_config/__init__.py:643-660 | a sequence of writes applies credentials at most once per write |
| Reassembly.CompletedWhole | pisugar_wifi_config/__init__.py:654-657 | the encoding of `msg + END` completes as `msg` when `END` occurs only at its end |
| Reassembly.NoEarlyCompletion | pisugar_wifi_config/__init__.py:653-655 | no proper prefix of such an encoding completes |
| Reassembly.TriggeredWhole | pisugar_wifi_config/__init__.py:653-658 | a whole encoded message triggers `parse_and_set_wifi(msg)` |
| Reassembly.TriggeredPrefix | pisugar_wifi_config/__init__.py:653-658 | a proper prefix of it triggers nothing |
| Reassembly.DeliverOne | pisugar_wifi_config/__init__.py:646-658 | one timely chunk of an encoded message extends the buffer and triggers the parse only when it completes the message |
| Reassembly.DeliverRest | pisugar_wifi_config/__init__.py:646-658 | timely chunks, the last one non-empty, that finish an encoded message apply it exactly once, at the end |
| Reassembly.ChunkedDelivery | pisugar_wifi_config/__init__.py:646-658 | a message cut into timely chunks, the last one non-empty, from an empty or stale buffer, is applied exactly once |
| Reassembly.ChunkedCredentials | pisugar_wifi_config/__init__.py:643-660 | such a delivery of a well-formed message applies exactly its ssid and password |
| Reassembly.RunAppend | pisugar_wifi_config/__init__.py:643-660 | running two batches of writes in turn is running their concatenation |
| Reassembly.RunLastUpdate | pisugar_wifi_config/__init__.py:650 | after writes, the last-write time is the time of the last write |
| Reassembly.GapForgetsEarlierWrites | pisugar_wifi_config/__init__.py:648-649 | after a pause of more than a second, later calls are those of the later writes alone from an empty buffer |
| Reassembly.SecondMessageWithinGapReappliesFirst | pisugar_wifi_config/__init__.py:655-658 | two whole messages within a second apply the first message twice and never the second |
| Reassembly.EmptyWriteReappliesMessage | pisugar_wifi_config/__init__.py:648-658 | an empty write within a second of a whole message applies that message a second time |
| Reassembly.TriggeredTwice | pisugar_wifi_config/__init__.py:655-657 | a buffer holding two whole messages triggers the first |
| Reassembly.SecondMessageAfterGapAppliesBoth | pisugar_wifi_config/__init__.py:648-651 | with more than a second between them, both messages are applied in order |
| Gatt.ServicePathUnderBase | pisugar_wifi_config/__init__.py:217 | `ServicePath`: a service's path is `/com/pisugar/wifi/service` followed by its index's digits |
| Gatt.IndexedExtends | pisugar_wifi_config/__init__.py:217 | `Indexed`, `base + str(index)`, strictly extends `base` with digits only |
| Gatt.IndexedInjective | pisugar_wifi_config/__init__.py:217 | different indices under one base give different paths |
| Gatt.ChildPathsExtendParent | pisugar_wifi_config/__init__.py:265-342 | `ChrcPath` and `DescPath`: a characteristic's path strictly extends its service's path followed by `/char`, a descriptor's its characteristic's path followed by `/desc` |
| Gatt.DescNeverChrc | pisugar_wifi_config/__init__.py:342 | no descriptor path equals any characteristic path of the same service |
| Gatt.ServiceProperties | pisugar_wifi_config/__init__.py:224-232 | `ServiceInterfaces`, the service's `get_properties`: only the service interface, holding `UUID`, `Primary` and the characteristics' paths in order |
| Gatt.ChrcProperties | pisugar_wifi_config/__init__.py:273-283 | `ChrcInterfaces`, the characteristic's `get_properties`: only the characteristic interface, holding the service's path, `UUID`, `Flags` and the descriptors' paths in order |
| Gatt.DescProperties | pisugar_wifi_config/__init__.py:349-357 | `DescInterfaces`, the descriptor's `get_properties`: only the descriptor interface, holding the characteristic's path, `UUID` and `Flags` |
| Gatt.ServiceGetAll | pisugar_wifi_config/__init__.py:253-257 | succeeds iff the interface is the service interface, with its properties; otherwise `InvalidArgs` |
| Gatt.ChrcGetAll | pisugar_wifi_config/__init__.py:303-307 | the same for the characteristic interface |
| Gatt.DescGetAll | pisugar_wifi_config/__init__.py:364-368 | the same for the descriptor interface |
| Gatt.ToMapKeys | pisugar_wifi_config/__init__.py:194-207 | the response's keys are exactly the paths of the flattened objects |
| Gatt.ToMapDistinct | pisugar_wifi_config/__init__.py:194-207 | with distinct paths, the response has one key per object and each holds that object's own interfaces |
| Gatt.Descriptor.constructor | pisugar_wifi_config/__init__.py:341-347 | path is the characteristic's path + `/desc` + index; uuid, flags and owner as given |
| Gatt.Characteristic.constructor | pisugar_wifi_config/__init__.py:264-271 | path is the service's path + `/char` + index; no descriptors |
| Gatt.Characteristic.AddDescriptor | pisugar_wifi_config/__init__.py:288-289 | appends the descriptor and changes nothing else |
| Gatt.Characteristic.GetDescriptorPaths | pisugar_wifi_config/__init__.py:291-295 | the descriptors' paths in insertion order |
| Gatt.Service.constructor | pisugar_wifi_config/__init__.py:216-222 | path is `/com/pisugar/wifi/service` + index; no characteristics |
| Gatt.Service.AddCharacteristic | pisugar_wifi_config/__init__.py:238-239 | appends the characteristic |
| Gatt.Service.GetCharacteristicPaths | pisugar_wifi_config/__init__.py:241-245 | the characteristics' paths in insertion order |
| Gatt.Application.constructor | pisugar_wifi_config/__init__.py:182-185 | path `/`, no services |
| Gatt.Application.AddService | pisugar_wifi_config/__init__.py:190-191 | appends the service |
| Gatt.Application.GetManagedObjects | pisugar_wifi_config/__init__.py:194-207 | the nested loop's dictionary is the depth-first flattening (service, then each characteristic followed by its descriptors) written in order into an empty dictionary |
| Gatt.PutServices | pisugar_wifi_config/__init__.py:194-205 | the outer loop writes each service's entry followed by those of its characteristics and descriptors, in order, into an empty dictionary |
| Gatt.PutCharacteristics | pisugar_wifi_config/__init__.py:201-205 | the inner loops write the characteristics and their descriptors in order |
| Gatt.PutDescriptors | pisugar_wifi_config/__init__.py:204-205 | the innermost loop writes the descriptors in order |
| GattTree.ChrcPathsDiffer | pisugar_wifi_config/__init__.py:265 | two characteristics of one service at different indices have different paths |
| GattTree.DescPathsDiffer | pisugar_wifi_config/__init__.py:342 | descriptor paths differ whenever the characteristic index or the descriptor index differs |
| GattTree.DescEntriesAre | pisugar_wifi_config/__init__.py:204-205 | one entry per descriptor, with its path and interfaces |
| GattTree.ChrcEntriesCount | pisugar_wifi_config/__init__.py:201-205 | one entry per characteristic and per descriptor |
| GattTree.ChrcEntriesUnder | pisugar_wifi_config/__init__.py:265 | every entry below a service has the service's path as a strict prefix |
| GattTree.LaterPathsAreNew | pisugar_wifi_config/__init__.py:201-205 | entries of earlier characteristics never reuse a later characteristic's or descriptor's path |
| GattTree.ChrcEntriesDistinct | pisugar_wifi_config/__init__.py:201-205 | characteristics at their own indices produce entries with pairwise different paths |
| GattTree.ServiceObjectsDistinct | pisugar_wifi_config/__init__.py:194-207 | for a service built at its indices, the response has 1 + characteristics + descriptors keys, each with its own interfaces |
| PiSugar.ChrcUuidsDistinct | pisugar_wifi_config/__init__.py:383-677 | `ChrcUuid`, the classes' `UUID` constants: each is the service UUID with a different last part, and no two characteristics share one |
| PiSugar.ChrcFlags | pisugar_wifi_config/__init__.py:383-686 | each characteristic passes at least one flag, all from `read`, `write`, `write-without-response` and `notify` |
| PiSugar.DescriptorUuid | pisugar_wifi_config/__init__.py:392-443 | a characteristic adds a descriptor (`2001` or `2002`) exactly when it overrides `ReadValue` |
| PiSugar.ChrcText | pisugar_wifi_config/__init__.py:394-432 | the text a characteristic's `ReadValue` encodes exists exactly for the two that override it; the device model reads the model file's contents, or the empty text without the file |
| PiSugar.DescText | pisugar_wifi_config/__init__.py:408-446 | a descriptor's `ReadValue` text exists exactly for the descriptors the constructors add |
| PiSugar.FlagsMatchHandlers | pisugar_wifi_config/__init__.py:383-686 | each characteristic advertises exactly the handlers it overrides, except the command characteristic, whose `notify` flag falls through to the default `NotSupported` |
| PiSugar.ReadBytes | pisugar_wifi_config/__init__.py:394-395 | a read returns the UTF-8 bytes of its text, which decode back to it, or `NotSupported` |
| PiSugar.ChrcReadValue | pisugar_wifi_config/__init__.py:418-432 | reads succeed exactly on the characteristics that override `ReadValue`, with the service name or the model file's contents, which is the empty text when the file is missing |
| PiSugar.DescReadValue | pisugar_wifi_config/__init__.py:408-446 | descriptor reads succeed exactly on the two descriptors the constructors add, with the service name or `Raspberry Hardware Model` |
| PiSugar.NewCharacteristic | pisugar_wifi_config/__init__.py:418-428 | a subclass constructor yields its UUID, flags, path, and its descriptor at index 0 when it has one |
| PiSugar.AddNew | pisugar_wifi_config/__init__.py:700-707 | one `add_characteristic(XChrc(bus, i, self))` extends the service by that characteristic |
| PiSugar.NewService | pisugar_wifi_config/__init__.py:697-707 | the service holds the eight characteristics at indices 0 to 7 in source order |
| PiSugar.NewApplication | pisugar_wifi_config/__init__.py:710-713 | the application at `/` holds exactly that service at index 0 |
| PiSugar.ExpectedServiceWellPlaced | pisugar_wifi_config/__init__.py:697-707 | every object of the service sits at its own index under its parent |
| PiSugar.ExpectedDescCount | pisugar_wifi_config/__init__.py:697-707 | eight characteristics and two descriptors |
| PiSugar.PiSugarManagedObjects | pisugar_wifi_config/__init__.py:194-207 | `GetManagedObjects` on the PiSugar application has eleven entries under eleven distinct paths |
| Notify.Apply | pisugar_wifi_config/__init__.py:484-492 | after a request the flag is set iff it was a subscription; an unsubscription keeps the thread's started state, and a subscription starts the thread unless the flag was already set |
| Notify.Raises | pisugar_wifi_config/__init__.py:484-489 | only a subscription raises, and one that raises still leaves the flag set and the thread started |
| Notify.After | pisugar_wifi_config/__init__.py:479-492 | after any requests on a fresh characteristic, the flag is set only with the thread started |
| Notify.Outcome | pisugar_wifi_config/__init__.py:484-489 | a request raises, and then `RuntimeError`, exactly when a subscription finds its thread already started |
| Notify.NotifyChrc.constructor | pisugar_wifi_config/__init__.py:479-482 | not notifying, thread created but not started |
| Notify.NotifyChrc.StartNotify | pisugar_wifi_config/__init__.py:484-489 | no-op when notifying; otherwise the flag is set and the thread is started, raising if it was started before |
| Notify.NotifyChrc.StopNotify | pisugar_wifi_config/__init__.py:491-492 | clears the flag only |
| Notify.StartWhileNotifying | pisugar_wifi_config/__init__.py:485-486 | subscribing while notifying changes nothing and raises nothing |
| Notify.StopClears | pisugar_wifi_config/__init__.py:491-492 | unsubscribing always leaves the flag cleared and never raises |
| Notify.ApplyConsistent | pisugar_wifi_config/__init__.py:484-492 | the flag is only ever set with the thread started |
| Notify.AfterIs | pisugar_wifi_config/__init__.py:479-492 | after any requests, notifying iff the last was a subscription; thread started iff there was one |
| Notify.StartRaisesIff | pisugar_wifi_config/__init__.py:484-489 | a subscription raises iff an earlier one happened and the last request was an unsubscription |
| Notify.RestartFails | pisugar_wifi_config/__init__.py:484-492 | subscribe, unsubscribe, subscribe raises `RuntimeError` and leaves the flag set, with the thread object already started once |
| Advertising.AdProperties | pisugar_wifi_config/__init__.py:94-117 | the dictionary always holds `Type` with the advertisement's type |
| Advertising.AdPropertiesKeys | pisugar_wifi_config/__init__.py:94-117 | `Type` is always present, each optional key exactly when its field is set, and nothing else |
| Advertising.AdPropertiesValues | pisugar_wifi_config/__init__.py:94-117 | each present key holds its field's value in its D-Bus type |
| Advertising.AdInterfaces | pisugar_wifi_config/__init__.py:117 | the properties sit under the advertisement interface alone |
| Advertising.AdGetAll | pisugar_wifi_config/__init__.py:155-160 | succeeds iff the interface is the advertisement interface; otherwise `InvalidArgs` |
| Advertising.Advertisement.constructor | pisugar_wifi_config/__init__.py:81-92 | path `/com/pisugar/wifi/advertisement` + index, only the type set |
| Advertising.Advertisement.AddServiceUuid | pisugar_wifi_config/__init__.py:122-125 | appends to the list, creating it when unset, nothing else changes |
| Advertising.Advertisement.AddSolicitUuid | pisugar_wifi_config/__init__.py:127-130 | the same for solicit UUIDs |
| Advertising.Advertisement.AddManufacturerData | pisugar_wifi_config/__init__.py:132-135 | sets the code's bytes in the dictionary, creating it when unset |
| Advertising.Advertisement.AddServiceData | pisugar_wifi_config/__init__.py:137-140 | sets the UUID's bytes in the dictionary, creating it when unset |
| Advertising.Advertisement.AddLocalName | pisugar_wifi_config/__init__.py:142-145 | the name replaces any earlier one |
| Advertising.Advertisement.AddData | pisugar_wifi_config/__init__.py:147-150 | sets the type's bytes in the dictionary, creating it when unset |
| Advertising.AddedUuidAdvertised | pisugar_wifi_config/__init__.py:122-125 | after adding, the advertised list is the earlier UUIDs in order, then the new one |
| Advertising.NewPiSugarAdvertisement | pisugar_wifi_config/__init__.py:716-721 | a peripheral with the service UUID, name `pisugar` and transmit power on |
| Advertising.PiSugarAdvertised | pisugar_wifi_config/__init__.py:716-721 | its properties are exactly those four keys |
| Daemon.TimerStarts | pisugar_wifi_config/__init__.py:811 | the timer thread starts iff `seconds` is given and positive |
| Daemon.StopTime | pisugar_wifi_config/__init__.py:760-765 | the timer unregisters `seconds` after it starts, or at once for a non-positive value |
| Daemon.StopCount | pisugar_wifi_config/__init__.py:810-827 | `main` raises iff `seconds` is `None`; otherwise the advertisement is unregistered at most twice, exactly once without a timer, and, before the timer is due, once or not at all depending on whether the loop ended before `start_at + seconds` |
| Daemon.FinalStop | pisugar_wifi_config/__init__.py:826 | `TypeError` iff `seconds` is `None`; otherwise `main` unregisters iff there was no timer or its time has not run out |
| Daemon.NoneRaises | pisugar_wifi_config/__init__.py:826 | `-t` without a value: no timer, and `main` raises |
| Daemon.NoLimitMainStops | pisugar_wifi_config/__init__.py:810-827 | with `seconds <= 0` there is no timer and `main` unregisters exactly once |
| Daemon.AtMostOneStop | pisugar_wifi_config/__init__.py:810-827 | the advertisement is never unregistered twice |
| Daemon.ExactlyOneStopOutsideWindow | pisugar_wifi_config/__init__.py:810-827 | it is unregistered exactly once, except when the loop ends between `start_at + seconds` and the thread's start `+ seconds`, when it is not unregistered at all |

| WpaConfig.LiteralText | pisugar_wifi_config/__init__.py:582 | `str.format` copies text without braces to the output unchanged |
| WpaConfig.NameMeetsBrace | pisugar_wifi_config/__init__.py:582 | a replacement field whose name runs into a `{` raises `ValueError` |
| WpaConfig.EmptyField | pisugar_wifi_config/__init__.py:582 | an empty field `{}` takes the next positional argument unchanged |
| WpaConfig.DoubledBrace | pisugar_wifi_config/__init__.py:582 | a doubled brace stands for one literal brace |
| WpaConfig.TemplateAsWrittenRaises | pisugar_wifi_config/__init__.py:541-589 | the template as written makes `template.format(ssid, password)` raise `ValueError` for every ssid and password |
| WpaConfig.SetWifiConfig | pisugar_wifi_config/__init__.py:541-582 | with the block's braces doubled, the template formats to the `network` block holding the ssid and the password, for every ssid and password |

## Left out

- D-Bus and BlueZ plumbing is not modelled:
  - registering and exporting objects (`dbus.service.Object`, `find_adapter`, `RegisterApplication`, `RegisterAdvertisement`, `Release`, `get_path`);
  - emitting `PropertiesChanged`.
  - These are calls into a foreign library. Paths stay plain strings.
- The effects of `set_wifi` (`pisugar_wifi_config/__init__.py:541-589`) are not modelled, and as written it has none: `template.format` raises `ValueError` on the template's bare `{` (`WpaConfig.TemplateAsWrittenRaises`), and the `except` at lines 588-589 only prints it. No file is written and `wpa_supplicant` is not restarted. A call is represented by the `(ssid, password)` pair it receives. The temporary file, `killall` and the restart that would follow a successful format are process and file I/O.
- `WpaConfig.FormatFrom` models `str.format` only for literal text, doubled braces and empty `{}` fields. Named, numbered or indexed fields, conversions and format specs give `Unsupported`, because the template uses none of them.
- The poller threads `ReadWifiNameThread` and `ReadIPAddrThread` are not modelled: their loops, sleeps and scraping of `iwconfig`/`ifconfig` output are concurrency and external tools. Only the thread object's started flag is kept (`Notify`). Whether a poller is still running after an unsubscription depends on whether it woke up in between, which the model does not capture.
- `CommandChrc` and `CommandThread` run shell commands in a thread, which is not modelled. Only their UUID, flags and place in the tree are kept, plus the fact that the `notify` flag has no handler behind it.
- `InputNotifyMessageChrc.StartNotify`/`StopNotify` have empty bodies. They appear only as overridden handlers in `PiSugar.Overrides`.
- The device-model characteristic's read of `/proc/device-tree/model` is file I/O. Its contents is a parameter (`PiSugar.ModelText`, used by `PiSugar.ChrcText`).
- `time.time()`, `time.sleep`, signal handling, the GLib main loop and argparse are not modelled. Timestamps and the `-t` value (an `Option<int>`) are inputs.
- Concurrency between D-Bus handlers is not modelled. Writes to one characteristic are taken in delivery order.
- `Daemon.StopCount` assumes the timer's unregistration happens before `main`'s check exactly when the timer is due by the time the loop ends. Thread scheduling after that moment and process exit are not modelled.
- D-Bus integer widths are not checked. Manufacturer codes (`q`) and data types (`y`) are plain integers, because dbus-python would reject out-of-range values only when it sends them.
- `Gatt.Application.GetManagedObjects` iterates over a snapshot of the tree. Nothing changes the tree during the call, so this is the source's loop over the live lists. The Python dictionary's insertion order is not modelled, because the response is a `map`.
- Log messages (`print`) and exception texts are not modelled. Only which error is raised is kept.
- Advertising.AddedUuidAdvertised: states the new `ServiceUUIDs` value. It does not also state that the other keys are unchanged. That follows from `Advertising.AdPropertiesKeys` and `Advertising.AdPropertiesValues` applied before and after.

## Findings

| source | as written | input that shows it | evidently intended | confidence | as-written member | corrected member |
|---|---|---|---|---|---|---|
| pisugar_wifi_config/__init__.py:542-589 | the template's `network={` and closing `}` are single braces. `str.format` reads `{` as the start of a field, and the field name runs into the `{` of `"{}"`. This raises `ValueError`, and the `except` only prints it, so no configuration is written and `wpa_supplicant` is not restarted | any call, e.g. `set_wifi("home", "secret")` | double the block's braces (`network={{`, `}}`), so that the output is the `network` block with the ssid and the password substituted | not executed; follows from `str.format`'s parsing rules as modelled | WpaConfig.TemplateAsWrittenRaises | WpaConfig.SetWifiConfig |
