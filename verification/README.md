# libfcd verification model

Dafny model of libfcd, the FUNcube dongle library, and of the hidapi copy it carries. It covers

- the queue of input reports that a receiving thread fills and readers empty, with its condition variable and
  its shutdown, for both the libusb and the macOS back end (`ReadProtocol`, `ReportQueue`), the life of the
  libusb transfer (`Transfer`), the barrier written for macOS (`Barrier`) and the overlapped read on Windows
  (`WindowsRead`);
- the firmware flasher: the command/response exchange (`Transport`), writing and verifying an image
  (`Flasher`), and the walk over all dongles present (`Fleet`), on top of device enumeration (`Enumeration`);
- the scanner of HID report descriptors (`UsageScan`), the correction and frequency commands (`Corrections`)
  with their byte order (`Bytes`), and time arithmetic (`Timing`).

`dafny verify dfyconfig.toml` checks everything.

## How it is built

Protocols are transition systems whose steps are the critical sections of a mutex; a run is any sequence of
enabled steps, and main results hold for all runs. A condition signal wakes at least one waiter, waiters may
wake spuriously, and flags are written outside the mutex. Code that updates memory in place is a class or a
method over arrays; its `ensures` equate the new state with a function of the old one (`Push`, `ReadCall`, `Io`,
`Flash`, `Visit`, `Select`, `Call`), and the lemmas say what those functions mean. `ReportQueue` and
`ReadProtocol` share the functions that decide what a critical section does, and `Transport` runs on the
`ReportQueue` class, so that the flasher's exchanges go through the modelled queue.

The environment is explicit. A `Dongle` is flash, address pointer, reported range and mode; its block commands
advance the pointer, which the flasher relies on because it sets the address once. A `Session` says how one
open/write/read/close goes wrong, and every result that does not say "without faults" holds for every sequence
of sessions. One thing is excluded: a report that acknowledges a command the device did not execute.

Calls may fail to return: `fcd_io` reads with a blocking `hid_read`. `hung` in a result or an out-parameter says
that the call is still waiting there. Its code is then the one of the step it waits in, and nothing after that
step has happened.

Results worth knowing before reading the code:

- On libusb a wakeup is lost in some run exactly when two or more calls may wait at once, because the callback
  signals only when the list was empty. Threads that take turns are safe. On macOS none is ever lost.
- After the shutdown broadcast nobody sleeps again, on macOS always, on libusb exactly when the flag is set at
  that moment. The `break` for fatal event errors leaves it clear.
- The queue holds 32 reports, not the 30 of the comment: the walk counts hops before the append.
- The macOS barrier keeps its promise exactly when waits do not return unsignalled (or nobody has to wait).
- A macOS reader woken on a stopped device returns -1 and leaves the queued report; libusb returns the report.
- If the first submission of a transfer fails, none is ever in flight and, until `hid_close`, no flag says so.
- An exchange never returns if and only if the session opens, the request is reported as sent in full, nothing
  arrives and the device stays connected. One such dongle keeps a reset or flash walk from all later ones.

## Model

| member | source | states |
|---|---|---|
| ReadProtocol.QueueHistory | hidapi/hid-libusb.c:657-682 | In every run on either platform the queue is the not yet removed suffix of what was received, at most 32 long; the i-th removal is of the i-th report received; an eviction happens when exactly 32 newer reports have arrived |
| ReadProtocol.ReceivedInOrder | hidapi/hid-libusb.c:651-681 | In every run the received sequence is exactly that of the reports brought, in order |
| ReadProtocol.ReaderSteps | hidapi/hid-libusb.c:999-1066 | A reader waits exactly on an empty, running device, on entry only if its timeout allows; otherwise it returns, with the oldest report if there is one (macOS: unless stopped, after a wakeup); one that timed out returns empty-handed; nobody else is affected |
| ReadProtocol.ExpireIffTimed | hidapi/hid-libusb.c:1021-1034 | In every run exactly the sleeping readers whose latest call has a deadline can time out |
| ReadProtocol.StopIff | hidapi/hid-macosx.c:661-680 | In every run a stop flag is set if and only if somebody set one, or on macOS read_thread left its loop |
| ReadProtocol.StepKeepsInv | hidapi/hid-libusb.c:996-1066 | Every critical section keeps the history and keeps a thread in at most one of sleeping, notified and expired |
| ReadProtocol.MacOSNoLostWakeup | hidapi/hid-macosx.c:592-622 | For any set of readers and any run: while a reader sleeps un-notified and reports are queued and nothing is stopped, at least as many readers are on their way as reports are queued |
| ReadProtocol.StepKeepsEnoughAwake | hidapi/hid-macosx.c:832-871 | That balance survives each step: append with eviction, entry, wake, renewed sleep, timeout, spurious wakeup |
| ReadProtocol.LibusbNoLostWakeupIffTakingTurns | hidapi/hid-libusb.c:660-664 | For any set of threads: no run in which at most k calls wait at the same time strands a reader beside a queued report, if and only if k is at most 1 or there is at most one thread |
| ReadProtocol.SleepersFaceEmptyQueue | hidapi/hid-libusb.c:1013-1057 | In every run in which any number of threads take turns in waiting, a reader sleeps un-notified only while the queue is empty |
| ReadProtocol.TwoReadersStrand | hidapi/hid-libusb.c:657-682 | A five-step run in which two waiting readers and two reports leave one reader asleep beside a queued report |
| ReadProtocol.ShutdownWakesAll | hidapi/hid-macosx.c:661-688 | In every run on macOS, and on libusb in every run without the fatal break: once read_thread has broadcast, a stop flag is set and no continuation puts a reader to sleep |
| ReadProtocol.LibusbShutdownWakesAllIffStopped | hidapi/hid-libusb.c:734-765 | Right after the broadcast: no continuation puts a reader to sleep if and only if the flag is set |
| ReadProtocol.CanSleep | hidapi/hid-libusb.c:1013-1017 | While the flag is clear any reader can reach sleep from any state, with a run that shows it |
| ReadProtocol.FatalBreakLeavesFlagClear | hidapi/hid-libusb.c:742-747 | The break for a fatal error reaches the broadcast with the flag clear |
| ReportQueue.ReadReturns | hidapi/hid-libusb.c:985-1068 | The whole result of a call for every schedule of waits: at once, or at the first return of the wait after which it does not wait again, 0 if that wait timed out, -1 if it failed or the device is stopped without a report to return, else the oldest report with the rest of the queue left; the platforms differ in what they look at first |
| ReportQueue.ReadCodes | hidapi/hid-libusb.c:985-1068 | Meaning of every result: -1 is stopped (on libusb also drained), 0 a poll of an empty running device or a wait that timed out, a waiting call faces an empty running device, a queued report is handed over first |
| ReportQueue.PlatformsAgree | hidapi/hid-macosx.c:873-945 | As long as nobody stops the device both implementations return the same for every schedule of waits |
| ReportQueue.BlocksIff | hidapi/hid-libusb.c:1013-1057 | For every schedule of waits: a call is still waiting if and only if it may wait and every return of the wait was a wakeup to an empty, running device; so a blocking read of a silent, connected device never returns |
| ReportQueue.PlatformsDifferOnStoppedData | hidapi/hid-macosx.c:845-846 | For every schedule of waits the two differ if and only if the call waits and some wakeup, after wakeups to an empty, running device only, finds the device stopped with a report queued; libusb then returns that report, macOS returns -1 and keeps it |
| ReportQueue.HidDevice.constructor | hidapi/hid-libusb.c:119-129 | A new device has an empty valid list, nothing allocated and the flag clear |
| ReportQueue.HidDevice.ReturnData | hidapi/hid-libusb.c:964-976 | Removes the head, copies it as far as the buffer reaches, leaves the rest of the buffer, frees exactly this node |
| ReportQueue.HidDevice.WalkToTail | hidapi/hid-libusb.c:667-672 | Ends at the last node; the hops are one less than the queued reports |
| ReportQueue.HidDevice.LinkTail | hidapi/hid-libusb.c:673 | Extends the acyclic chain by one node behind the tail |
| ReportQueue.HidDevice.Enqueue | hidapi/hid-libusb.c:659-681 | The list becomes the pushed queue, one node is evicted and freed exactly on overflow, and the condition is signalled by the platform's rule |
| ReportQueue.HidDevice.ReceiveReport | hidapi/hid-macosx.c:585-622 | The same for a freshly allocated copy of the received bytes; one node more is allocated |
| ReportQueue.HidDevice.ReadTimeoutLibusb | hidapi/hid-libusb.c:985-1068 | Result, buffer and queue are those of the specified call for every schedule of waits; what is freed stays freed |
| ReportQueue.HidDevice.BlockLibusb | hidapi/hid-libusb.c:1013-1020 | The blocking loop ends with the specified action, whatever the waits return |
| ReportQueue.HidDevice.TimedLibusb | hidapi/hid-libusb.c:1034-1056 | The loop with a deadline ends with the specified action |
| ReportQueue.HidDevice.WaitForData | hidapi/hid-macosx.c:832-871 | cond_wait and cond_timedwait: 0 only with data, otherwise the specified code |
| ReportQueue.HidDevice.ReadTimeoutMacOS | hidapi/hid-macosx.c:873-945 | Result, buffer and queue are those of the specified call for every schedule of waits |
| ReportQueue.HidDevice.Drain | hidapi/hid-libusb.c:1166-1171 | Terminates with an empty list and every node ever allocated freed, once each |
| Barrier.BarrierCorrect | hidapi/hid-macosx.c:76-93 | For any trip count, threads and rounds: parked un-notified threads equal count, which is below the trip count; nobody leaves a round before trip different threads arrived; one return per round is 1; every thread that arrived in a tripped round has left it once or is released and free to leave |
| Barrier.ArriveKeepsInv | hidapi/hid-macosx.c:78-92 | Arriving, parked or tripping, keeps the barrier's invariant |
| Barrier.SafeIffNoSpuriousWakeup | hidapi/hid-macosx.c:87-92 | No thread ever leaves early if and only if waits do not return unsignalled or the trip count is 1 |
| Barrier.ReaderOutlivesWakeUp | hidapi/hid-macosx.c:690-695 | In every run of the handshake with hid_close without unsignalled wakeups, read_thread has left the shutdown barrier only after the run-loop wakeup |
| Barrier.ReaderLastIffNoSpuriousWakeup | hidapi/hid-macosx.c:1003-1011 | That holds in all runs of the handshake if and only if waits do not return unsignalled |
| Transfer.OneTransfer | hidapi/hid-libusb.c:699-704 | At most one transfer is in flight or in its callback; with the flag clear after startup exactly one is, if the first submission succeeded, and never one otherwise; the flag is never cleared |
| Transfer.FlagIff | hidapi/hid-libusb.c:684-707 | In every run the flag is set if and only if hid_close ran, a transfer was cancelled or its device lost, or a resubmission was refused |
| Transfer.FailedStartIsSilent | hidapi/hid-libusb.c:728-731 | A run in which the first submission fails and hid_open_path still returns a device, with the flag clear and no transfer in flight |
| Transfer.DeafUntilClosed | hidapi/hid-libusb.c:692-706 | From such a state every run without hid_close keeps the flag clear and no transfer in flight |
| Transfer.DeafIffRefused | hidapi/hid-libusb.c:714-731 | After startup and before hid_close a device is in that state if and only if its first submission was not accepted |
| Transfer.TransferMemory | hidapi/hid-libusb.c:1149-1158 | The transfer exists when hid_open_path returns, and is freed once, after read_thread has ended |
| Transport.WireMeaning | lib/fcd_common.c:100-114 | On the bytes of the first report the host's check passes if and only if the request was sent in full, the device executed and acknowledged it and enough of its report arrived; the bytes then taken are the start of the device's data |
| Transport.IoMeaning | lib/fcd_common.c:84-124 | The whole meaning of an exchange on the bytes of the first report: success if and only if the session opens, the request was reported sent in full, the report is long enough and starts with the command and 1, and then the output is what follows; ENODEV exactly if the session does not open, EIO for every other failure; hung exactly if nothing arrives on a connected device; the device has executed the packet or not |
| Transport.OtherReportFails | lib/fcd_common.c:105-114 | If a report of another command or status comes first the exchange fails with EIO |
| Transport.PacketLayout | lib/fcd_common.c:92-98 | Command, skipped zeros and as much of the data as fits in 64 bytes |
| Transport.CanHangExactly | lib/fcd_common.c:100-105 | On which sessions some exchange never returns: exactly those that open and report bytes as sent, on which the device stays connected and no reply arrives |
| Transport.SilenceHangs | lib/fcd_common.c:105 | Every exchange with a dongle that takes the request, stays connected and is silent waits for ever |
| Transport.FillCommand | lib/fcd_common.c:92-98 | The 65-byte buffer holds report number 0, then command, skipped zeros and input |
| Transport.HidOpenPath | hidapi/hid-libusb.c:779-909 | A handle with an empty queue if the session opens, none otherwise; one session is used up |
| Transport.HidWrite | hidapi/hid-libusb.c:912-960 | The device gets the data without a leading zero report number, which the returned count includes; the count is the transferred one on the interrupt endpoint and the requested one on the control endpoint; errors give -1 |
| Transport.Exchange | lib/fcd_common.c:100-115 | Valid if and only if the request was reported sent in full and the first report of the session is long enough and carries the command and status 1; the payload is that of this report. Never returns if and only if the request was reported sent in full, nothing arrives and the device stays connected |
| Transport.HidClose | hidapi/hid-libusb.c:1149-1171 | The flag is set and the queue ends drained with every report freed |
| Transport.FcdIo | lib/fcd_common.c:54-124 | NULL arguments, and nothing else, give EFAULT and touch nothing; otherwise result, errno, output, device and the packet on the wire are those of the specified exchange; it returns without an open handle, or hangs exactly as specified with its handle open |
| Flasher.FlashWriteMeaning | lib/fcd_bootloader.c:90-123 | 0 implies that flash equals the image on exactly the reported range and is unchanged elsewhere; -5 implies the completed blocks are programmed and of the next one all or nothing; -1 to -4 leave the flash alone; -2 and -3 are returned only for the reasons given; a call that hangs does so in a step with code -1, -4 or -5, with the same meaning |
| Flasher.FlashVerifyMeaning | lib/fcd_bootloader.c:126-164 | For all faults: 0 implies agreement on the whole range, 1 implies a difference, and the flash is unchanged |
| Flasher.VerifyAfterWrite | lib/fcd_bootloader.c:90-164 | After a successful write verifying the same image never returns 1, and without further faults returns 0 |
| Flasher.FlashSteady | lib/fcd_bootloader.c:90-164 | Both calls return on every dongle without a session on which an exchange can hang |
| Flasher.FlashWriteComplete | lib/fcd_bootloader.c:90-123 | The exact return code without faults, for every range, image and flash size, in terms of the two addresses and the size |
| Flasher.FlashVerifyComplete | lib/fcd_bootloader.c:126-164 | The return code without faults, for every range; on a suitable one 0 if and only if flash and image agree, else 1 |
| Flasher.WriteFromMeaning | lib/fcd_bootloader.c:114-122 | The write loop programs whole blocks in order, up to the block it fails on |
| Flasher.VerifyFromMeaning | lib/fcd_bootloader.c:150-163 | The verify loop decides agreement on what is left of the range |
| Flasher.BlockPacket | lib/fcd_bootloader.c:83-87 | A 48-byte block is never trimmed and sits behind the skipped byte |
| Flasher.FcdBlSetAddress | lib/fcd_bootloader.c:38-47 | On either host byte order the address goes out little-endian |
| Flasher.FcdBlGetAddressRange | lib/fcd_bootloader.c:50-74 | On either host byte order the two addresses are decoded from little-endian bytes |
| Flasher.FcdBlReadBlock | lib/fcd_bootloader.c:77-80 | On success the buffer is the 48 bytes of the exchange |
| Flasher.FcdBlWriteBlock | lib/fcd_bootloader.c:83-87 | Exchanges the whole block with one skipped byte |
| Flasher.WriteLoop | lib/fcd_bootloader.c:115-122 | The loop with its 32-bit counter ends like the specified one: the counter never wraps and every slice lies inside the image |
| Flasher.VerifyLoop | lib/fcd_bootloader.c:151-163 | The same for the verify loop |
| Flasher.FcdBlFlashWrite | lib/fcd_bootloader.c:90-123 | Code and device state are those of the specified write |
| Flasher.FcdBlFlashVerify | lib/fcd_bootloader.c:126-164 | Code and device state are those of the specified verify |
| Fleet.VisitStops | lib/fcd_common.c:166-180 | For any callback the walk completes if and only if no call fails or hangs, hangs if and only if some call does, and otherwise ends with the result of that call, its dongle as the call left it and all others as the entries before left them; paths may repeat |
| Fleet.VisitMeaning | lib/fcd_common.c:158-185 | fcd_for_each for any callback: completing implies every path's dongle is in the state success establishes and no other is touched; otherwise the walk stopped at an entry as above, all dongles before are done and all after untouched |
| Fleet.CompletedCalls | lib/fcd_common.c:166-180 | A walk that completes has called the callback exactly once for each entry of each dongle |
| Fleet.FleetFlashed | src/flash.c:220-266 | With write or verify selected, success of the walk implies every enumerated dongle with a path holds the image, whatever the faults; failure, or a walk that never returns, names the entry it stopped at, all before done and all after untouched |
| Fleet.ResetReachesAll | lib/fcd_common.c:139-155 | The reset walk never stops at a failure; it hangs if and only if some attempt does, stated on the dongles before the walk; if it returns it returns 0 and each dongle has had one attempt per entry, otherwise exactly the entries up to the hanging one have |
| Fleet.ResetMeaning | lib/fcd_common.c:139-155 | One attempt, whatever the faults: a dongle that does not open is left alone, otherwise one exchange follows and at most the mode changes; the result is 0 |
| Fleet.SilentDongleBlocksReset | lib/fcd_common.c:139-155 | One dongle that opens and stays silent, listed first, keeps the walk for ever and every other dongle from its reset |
| Fleet.FlashOneMeaning | src/flash.c:220-266 | For every action set and whatever the faults, what each result says of the flash: 0 the erased or old contents everywhere outside the written range and the image on it, agreement if verify is selected; each error how far erase, write and verify got; a failed erase is returned and nothing follows it; a dongle that does not open is untouched |
| Fleet.FlashOneSteps | src/flash.c:228-257 | Each selected action is performed if and only if those before it succeeded, and its failure is the result |
| Fleet.FlashOneMode | src/flash.c:228-257 | Success with any action selected needs a dongle in the bootloader |
| Fleet.FlashWalkComplete | src/flash.c:443-447 | Without faults flashing suitable dongles returns, and succeeds if and only if all of them are in the bootloader |
| Fleet.MainReturns | src/flash.c:438-454 | The action sequence returns on every fleet without a session on which an exchange can hang |
| Fleet.MainSequence | src/flash.c:438-462 | Whatever the faults: the walks follow each other as far as they return, the final reset is made whatever the flash walk returned, and the exit code is 0 exactly if the flash walk succeeded |
| Fleet.ExitMeansFlashed | src/flash.c:438-462 | Whatever the faults: exit code 0 with write or verify selected implies that every dongle found for flashing holds the image in the end |
| Fleet.UpdateComplete | src/flash.c:438-454 | Without faults on the dongles to flash: if the action sequence returns, it exits with 0 if and only if every one of them was in the bootloader or was reset into it, and then each holds the image and runs the application if the last reset found it; it returns unless a dongle that is only reset can hang |
| Fleet.FlashCallback | src/flash.c:220-266 | Result and device are those of open, optional erase, write and verify, each only after success |
| Fleet.ResetCallback | lib/fcd_common.c:139-155 | Returns 0 in every case in which it returns |
| Fleet.FcdForEach | lib/fcd_common.c:158-185 | Enumerates, walks the list up to the first error and frees every node of it if it returns; result and all dongles are as specified |
| Fleet.ResetAll | lib/fcd_common.c:265-278 | The reset walk, then sleeps that total the delay; none if the walk does not return |
| Fleet.DonglePathsExactly | lib/fcd_common.c:164-174 | The walk goes over exactly the HID altsettings of devices with ids 0x04D8 and 0xFB56, in the order of the tree |
| Fleet.RunActions | src/flash.c:438-462 | Exit code and fleet are those of reset, flash walk and reset; after each reset walk the sleeps total the delay |
| Enumeration.HidEnumerate | hidapi/hid-libusb.c:434-593 | The list built with the tail pointer is the filtered flattened tree, in order |
| Enumeration.EnumeratedExactly | hidapi/hid-libusb.c:451-588 | That list, in terms of the tree: a record with the right fields for each HID altsetting of a device with matching ids (0 for any), in the order of the tree, once each, and nothing else |
| Enumeration.InfoList.Append | hidapi/hid-libusb.c:479-490 | Linking behind the tail pointer appends one record and keeps the chain |
| Enumeration.InfoList.FreeEnumeration | hidapi/hid-libusb.c:595-607 | Visits and frees every node, none twice |
| Enumeration.SearchOfSelection | hidapi/hid-libusb.c:609-632 | The first wanted record of the enumerated list is the first wanted altsetting of the whole tree, wildcard ids included |
| Enumeration.HidOpen | hidapi/hid-libusb.c:609-642 | Opens the path of the first altsetting with exactly these ids and, if given, this serial number; none if there is none |
| Enumeration.OpensFirst | hidapi/hid-libusb.c:609-632 | The path opened is that of the first altsetting of the tree that is HID, has exactly these ids and, if given, this serial number; none if there is none |
| UsageScan.GetUsage | hidapi/hid-libusb.c:181-249 | 0 if and only if items of both kinds occur; the values are the latest in the shortest prefix with both, or on failure the latest of each kind |
| UsageScan.GetBytes | hidapi/hid-libusb.c:153-175 | The little-endian number behind the key, 0 when the descriptor ends before; called with 0, 1, 2 or 4 only, all reads in bounds |
| UsageScan.ItemLengths | hidapi/hid-libusb.c:195-228 | Data and key length of short and long items |
| UsageScan.ItemsTile | hidapi/hid-libusb.c:244-246 | The items of any byte string follow each other without gap or overlap from its start to its end |
| UsageScan.ItemsOfEncoding | hidapi/hid-libusb.c:189-246 | Reading back any written list of short and long items gives that list, entry by entry |
| UsageScan.ScanOfEncoding | hidapi/hid-libusb.c:181-249 | On a written descriptor a scan succeeds with the last Usage Page and Usage up to the entry that completes the pair |
| UsageScan.ScanOfIncomplete | hidapi/hid-libusb.c:181-249 | On a written descriptor without both kinds a scan fails with the last value of each kind |
| UsageScan.ScanOfTwoKeys | hidapi/hid-libusb.c:235-242 | 05 is a one-byte Usage Page and 09 a one-byte Usage, for all values |
| WindowsRead.ReadsInOrder | hidapi/hid-windows.c:646-715 | Across any calls with any timeouts the delivered reports are the completed ones in order, none lost or repeated; at most the last waits, and the next call returns it |
| WindowsRead.CallMeaning | hidapi/hid-windows.c:646-715 | The whole result of a call: -1 if no read can be started; a read that is over by the end of the wait is collected by this very call, with its length without a leading zero, or -1 if it broke; otherwise the read stays outstanding and the call returns 0 or blocks |
| WindowsRead.PayloadMeaning | hidapi/hid-windows.c:691-709 | Only a zero in front is dropped from a report |
| WindowsRead.StepKeepsInv | hidapi/hid-windows.c:654-688 | read_pending says exactly whether a read is outstanding, and the event whether it is over |
| WindowsRead.TimeoutLeavesRead | hidapi/hid-windows.c:672-680 | A call that times out returns 0, leaves the read running and collects nothing |
| WindowsRead.WinDevice.ReadTimeout | hidapi/hid-windows.c:646-715 | Code and state are those of the specified call; the buffer gets the payload without a leading zero report number, clipped to its length |
| WindowsRead.WinDevice.StartRead | hidapi/hid-windows.c:654-670 | A read is started only when none is outstanding, on a buffer nobody uses |
| Corrections.PairRoundTrip | lib/fcd_application.c:32-121 | Encoded pairs, signed or unsigned in the second place, decode to the same values |
| Corrections.PairBytes | lib/fcd_application.c:32-94 | The four bytes on the wire: both values modulo 65536, low byte first |
| Corrections.GetReturnsStored | lib/fcd_application.c:51-72 | A getter on a fault-free dongle that holds an encoded pair returns the pair |
| Corrections.FcdSetDcCorrection | lib/fcd_application.c:32-48 | Exactly the values outside 16 signed bits are rejected, with EOVERFLOW and without an exchange; others go out little-endian on either host |
| Corrections.FcdGetDcCorrection | lib/fcd_application.c:51-72 | The values are the signed little-endian halves of the response on either host |
| Corrections.FcdSetIqCorrection | lib/fcd_application.c:75-94 | Exactly a phase outside 16 signed bits or a gain outside 16 unsigned bits is rejected, with EOVERFLOW and without an exchange |
| Corrections.FcdGetIqCorrection | lib/fcd_application.c:97-121 | A signed phase and an unsigned gain |
| Corrections.FcdSetFrequencyHz | lib/fcd_application.c:137-141 | Four little-endian bytes on either host |
| Corrections.FcdGetFrequencyHz | lib/fcd_application.c:144-157 | Decodes the four bytes on either host |
| Bytes.Converts16 | lib/fcd_common.h:117-127 | Convert and store writes little-endian bytes on either host; load and convert reads them |
| Bytes.Converts32 | lib/fcd_common.h:96-108 | The same for 32 bits |
| Bytes.LeastFirst | lib/fcd_common.h:96-127 | The wire bytes of 16-bit and 32-bit values, lowest first |
| Timing.Deadline | hidapi/hid-libusb.c:1024-1032 | The deadline is the instant now plus the timeout, normalised; OneNormalForm makes it unique |
| Timing.OneNormalForm | hidapi/hid-libusb.c:1029-1032 | An instant has one normalised form |
| Timing.MsSleep | lib/fcd_common.c:38-51 | The sleeps total exactly ms milliseconds, each shorter than a second |

## Left out

- libusb, IOKit, CoreFoundation, SetupAPI and thread primitives are abstract steps or contracts; in particular nothing is said about a transfer still in flight when it is freed, which depends on how libusb treats a second cancel.
- Transport.HidWrite: assumes at least one byte, the first of which the code reads; whether a control transfer reached the device in full is not deduced from the count, which is the requested one.
- Transport.HidClose: models the flag and the drain; cancelling, joining and freeing the transfer are in Transfer.TransferMemory, releasing the interface is not modelled.
- Transport.HidOpenPath: models the outcome of the open, not descriptor walking, kernel drivers or endpoints; one HID altsetting per interface is assumed.
- Enumeration.HidOpen: excludes lists on which the code would compare the given serial number with a NULL one, exactly.
- UsageScan.GetUsage: bounded to descriptors shorter than 2^32 - 258 bytes, beyond which the 32-bit index could wrap around; the code reads at most 256. As in the code, every prefix with high nibble 0xF is a long item.
- Fleet.RunActions: the USB trees the three enumerations see are given, and every enumerated dongle path belongs to a known dongle; an unplugged one is a session that does not open.
- Corrections.GetReturnsStored: the dongle's application firmware is a table of answers; that it stores what a setter sent is not part of this model.
- ReportQueue: the results of a condition wait other than success and timeout are in the read specification but not in the transition system.
- Copies of the received bytes are values; allocation failure is not modelled.
- fcd_get_value and fcd_get_bias_tee pass the address of their own pointer parameter, so the caller's byte is not set; their round trip is not stated.
- convert_le_u32 has an extra closing parenthesis in its big-endian branch (lib/fcd_common.h:103); the intended byte swap is modelled.
- The second walk over the report list in free_hid_device on macOS, which finds the list drained.
- hid_write padding on Windows, feature reports, string descriptors, path formatting, fcd_open without a path, fcd_query, tuner enumerations, command line, file reading and printing: I/O, constants or easy claims.
