# SD card recovery tools: a verified model of the core

The repository has two halves that this model covers.

- **`main.cpp`** is a Windows tool that lists the physical drives and flags the ones that may be SD cards. For each drive it:
  - reads the identity strings from the storage descriptor (`SafeExtractString`);
  - sorts the drive into one of eight classes (`ClassifyDrive`);
  - decides whether it is an SD candidate;
  - copies the partition table (`QueryPartitionLayout`);
  - finds the volumes whose extents lie on the disk (`FindVolumesOnDisk`);
  - joins REG_MULTI_SZ hardware ids into one `"; "`-separated string;
  - holds every Win32 handle in an RAII guard (`HandleGuard`).
- **A NAND dumper for a Zynq board.**
  - `nand_dump.c` is the ARM firmware. It decodes the chip geometry from ID byte 3 and sends a framed dump over the UART:
    - a `DUMP_START` line and a geometry line;
    - per page, a 7-byte header and the page bytes, or a 7-byte `ERR` marker;
    - a `BLK=` line after every 64th block;
    - `DUMP_END`.
    It also assembles addresses and counts from the bytes the `A` and `C` commands receive.
  - `host_receiver.py` is the PC side. It waits for lines, checks each header, accumulates each page from the serial port and writes it to a file.

## How the model is organised

| file | module | models |
|---|---|---|
| `common.dfy` | `Common` | `Option`, byte/`DWORD` types, shift-and-mask, little-endian bytes, the keep-and-convert loop shape |
| `descriptor_strings.dfy` | `DescriptorStrings` | `SafeExtractString`, `ContainsCaseInsensitive[W]`, the REG_MULTI_SZ join |
| `drive_classifier.dfy` | `DriveClassifier` | `ClassifyDrive`, the `isSDCandidate` expression |
| `partition_layout.dfy` | `PartitionLayout` | the partition filter of `QueryPartitionLayout` |
| `volume_scan.dfy` | `VolumeScan` | `FindVolumesOnDisk` and its extent match |
| `handle_guard.dfy` | `Handles` | `HandleGuard`, over a kernel handle table |
| `nand_geometry.dfy` | `NandGeometry` | the ID-byte geometry decode |
| `nand_dump.dfy` | `NandDump` | `uart_send_hex32`, header framing, word streaming, `do_read_page`, `do_dump_all`, the `A`/`C` byte assembly |
| `host_receiver.dfy` | `HostReceiver` | header decoding, `ERR` and length checks, line splitting, `BLK=` parsing, Python's `strip` and `int(s, 16)` |
| `host_capture.dfy` | `HostCapture` | the serial port as a class, `wait_for_line`, the page accumulation loop, `capture_dump` |

**Code that loops or updates state is modelled as methods.**
- Each loop is a `method` proved against a specification function:
  - `SafeExtractString`'s two loops;
  - the partition and volume loops;
  - the MULTI_SZ walk;
  - the hex loop and word loop;
  - the block/page loops;
  - the Python read loops.
- `HandleGuard` and the serial port are classes whose methods update their fields. The layout record is a class whose constructor sets its defaults; `QueryPartitionLayout` is a method that fills in its fields.

**Decisions, operation by operation.**
- **Win32 results are inputs to the methods.** This covers IOCTL replies, whether a path opens, the volume enumeration and the registry property.
- **The firmware's output.** The UART becomes the byte sequence a routine returns. The controller's page buffer becomes a sequence of 32-bit words. A page read's outcome becomes a `PageRead` value per row.
- **The serial port on the host** is a `SerialPort` object:
  - `incoming` holds the bytes the device has still to send;
  - `schedule` gives, read call by read call, how many bytes arrive before that call times out;
  - `requests` records the size each read asked for, and `written` the bytes sent to the device.
  A wall-clock timeout becomes a number of read calls. When the schedule runs out, no more data arrives.
- **Each host loop has a specification function on the port's state** (a `Port` value: the incoming bytes and the schedule):
  - `ReadRun` is a run of 256-byte reads, and `Waited` is where `wait_for_line` stops;
  - `PageRun` is the page loop;
  - `PassFrom` is one pass of the capture loop, and `CaptureRun` the whole loop, as a list of passes (`Frame`s) with its end, the port it leaves and the sizes it asked for.
  Each method's contract ties what it returns, the port's new state and the sizes it asked for to its function. Lemmas about the functions then state what the loops promise.
- **Unsigned C arithmetic is written out.**
  - `(bytes_read + 3) / 4` wraps at 2^32. For the three largest counts it reads no word at all (`NandDump.WordCountCovers`).
  - The header keeps only the low 24 bits of the row.

## Model

| member | source | states |
|---|---|---|
| DescriptorStrings.SafeExtractString | main.cpp:223-240 | the two loops (scan to NUL or end, then pop trailing blanks) compute exactly `DescriptorString(buffer, offset)` |
| DescriptorStrings.DescriptorStringContents | main.cpp:225-239 | empty when `offset == 0` or `offset >= bufferSize`; otherwise every character is the buffer byte at `offset + k`, never past `bufferSize` and before the first NUL; the result never ends in `' '` or `'\t'`, and only blanks were dropped from the scanned run |
| DescriptorStrings.RunLength | main.cpp:229-232 | the scan stays inside the buffer and stops at the first NUL or at `bufferSize` |
| DescriptorStrings.RunLengthClear | main.cpp:231 | no NUL lies inside the scanned run |
| DescriptorStrings.TrimTrailingBlanks | main.cpp:236-237 | the trimmed string is a prefix of its input that is empty or does not end in `' '`/`'\t'` |
| DescriptorStrings.TrimRemovesBlanks | main.cpp:236-237 | every character removed by the trim is a space or a tab |
| DescriptorStrings.Find | main.cpp:699 | `find` returns the first position from which the needle occurs, or none when it occurs nowhere |
| DescriptorStrings.ContainsCaseInsensitive | main.cpp:691-711 | true iff the lower-cased needle occurs in the lower-cased haystack; an empty needle always matches |
| DescriptorStrings.GetDeviceRegistryStringProperty | main.cpp:546-581 | no data gives `""`; REG_SZ gives the text up to its NUL; REG_MULTI_SZ gives the strings the pointer walk finds, joined with `"; "`; any other type gives `""` |
| DescriptorStrings.MultiSzRoundTrip | main.cpp:567-577 | walking a well-formed REG_MULTI_SZ list (non-empty NUL-free strings, each NUL-terminated, then a final NUL) gives back exactly its strings |
| DescriptorStrings.OccursAcrossSeparator | main.cpp:573 | a needle free of `;` and blanks occurs in `a + "; " + b` iff it occurs in `a` or in `b` |
| DescriptorStrings.JoinedContains | main.cpp:567-577 | such a needle matches the joined hardware-id string case-insensitively iff it matches one of the ids |
| DriveClassifier.Classify | main.cpp:713-750 | the class chosen is the first rule of the eight-rule decision list the drive satisfies |
| DriveClassifier.FirstMatchUnique | main.cpp:713-750 | at most one class is the first match, so the classification is a function of the drive |
| DriveClassifier.DescriptionInjective | main.cpp:713-750 | the eight returned texts are pairwise distinct |
| DriveClassifier.ClassifyDrive | main.cpp:713-750 | the result is one of the eight texts, namely the one of the first-matching class |
| DriveClassifier.CandidatesAreCardClassesOrSdIds | main.cpp:1065-1070 | every drive classed as SD bus, MMC bus or any USB-removable class is an SD candidate, and a drive is a candidate iff it is in such a class or has an `SD\` or `SDMMC\` hardware id |
| DriveClassifier.SdaIdAloneIsNotCandidate | main.cpp:733-735 | an `SDA\` hardware id puts a USB removable drive in the hardware-id class, yet on a fixed SATA drive it does not make an SD candidate |
| DriveClassifier.HardwareIdRulePerId | main.cpp:733-735 | over a joined id list, the `SD\`/`SDA\`/`SDMMC\` rule holds iff one of the individual ids contains one of the three needles |
| PartitionLayout.PartitionLayoutInfo.constructor | main.cpp:134-139 | a new record is RAW-style, with no partitions, a zero MBR signature and a zero GPT disk id |
| PartitionLayout.QueryPartitionLayout | main.cpp:390-421 | records the layout's style, the MBR signature only for an MBR disk and the GPT disk id only for a GPT disk, and appends `KeptEntries(entries)` to the partitions |
| PartitionLayout.KeptEntriesAreNonEmptySlots | main.cpp:397-421 | the kept entries are exactly the slots with non-zero length, in order; each copies the common fields, its MBR fields iff MBR-style and its GPT fields iff GPT-style (the name up to its first NUL), the others staying zero |
| PartitionLayout.GptNameUpToNul | main.cpp:418 | the copied GPT name is the part of the 36-character name field before its first NUL: it holds no NUL, and it is shorter than the field exactly when the field has a NUL |
| VolumeScan.DevicePath | main.cpp:460-466 | the path opened is the name without its trailing backslash, and appending the backslash restores the name |
| VolumeScan.OnTargetDisk | main.cpp:487-495 | true iff one of the extents the reply holds is on the target disk |
| VolumeScan.FindVolumesOnDisk | main.cpp:445-536 | a failed FindFirstVolumeW gives the error result; otherwise the result is `VolumesOn` of the enumeration, in enumeration order |
| VolumeScan.VolumeIncludedIff | main.cpp:456-497 | a volume is returned iff its name ends in a backslash, the name without it opens, the extents call did not fail (or failed with ERROR_MORE_DATA), it reported extents, and one held extent is on the target disk; each is returned under its full name |
| VolumeScan.SpaceOnlyWhenMounted | main.cpp:502-529 | a volume without a mount point has zero space figures; a mount point is the NUL-free first entry of the path-names buffer |
| VolumeScan.ScanAsWritten | main.cpp:488-495 | the loop as written finds the target iff a slot before the count holds it with no earlier match, and otherwise may reach a slot index past the structure |
| VolumeScan.MoreDataOverreads | main.cpp:481-495 | after ERROR_MORE_DATA with a count above one and a first extent elsewhere, the loop reads `Extents[1]`, outside the one-slot structure |
| VolumeScan.MoreDataOverreadExample | main.cpp:481-495 | a volume on disks 5 and 3, asked about disk 3, makes the loop read past the structure |
| VolumeScan.BoundedScanAgrees | main.cpp:487-495 | whenever the loop as written stays inside the structure, it agrees with the bounded loop |
| Handles.HandleGuard.constructor | main.cpp:54 | a new guard holds the given handle |
| Handles.HandleGuard.MoveFrom | main.cpp:58 | move construction takes the other guard's handle and leaves the other guard invalid |
| Handles.HandleGuard.MoveAssign | main.cpp:59-66 | self-assignment changes nothing; otherwise a valid old handle is closed exactly once, the other guard's handle is taken, and the other guard becomes invalid |
| Handles.HandleGuard.Destroy | main.cpp:55 | the destructor closes a valid handle once and leaves an invalid guard's kernel untouched |
| Handles.MoveThenDestroy | main.cpp:54-66 | opening two handles, move-assigning one guard over the other and destroying both guards closes each handle exactly once |
| NandGeometry.PageDataSizeValues | fpga_nand_recovery/sw/nand_dump.c:279 | the page data size is one of 1024, 2048, 4096 or 8192; it is 1024 iff the two low bits of byte 3 are 0, and 8192 iff they are 3 |
| NandGeometry.PagesPerBlockValues | fpga_nand_recovery/sw/nand_dump.c:283 | pages per block is one of 64, 128, 256 or 512, selected by bits 4-5 of byte 3 |
| NandGeometry.SpareAndTotalValues | fpga_nand_recovery/sw/nand_dump.c:280-282 | spare per 512 bytes is 16 iff bit 2 of byte 3 is set and 8 otherwise; the spare total is that figure per 512 data bytes; the total page size exceeds the data size and is at most 8448 |
| NandGeometry.Decode | fpga_nand_recovery/sw/nand_dump.c:274-283 | the decoded geometry's sizes lie in those ranges and its total is data plus spare, at most 8448 |
| NandDump.Hex32 | fpga_nand_recovery/sw/nand_dump.c:137-142 | the text is exactly eight ASCII characters, each one of the upper-case hex digits `0-9A-F` |
| NandDump.SendHex32 | fpga_nand_recovery/sw/nand_dump.c:137-142 | the loop from `i = 28` down to 0 sends exactly the bytes of `Hex32(val)`, most significant nibble first |
| HostReceiver.Hex32Value | fpga_nand_recovery/sw/nand_dump.c:137-142 | every character of `Hex32(v)` is a hex digit and the digits read most significant first give back `v` |
| NandDump.HeaderBytes | fpga_nand_recovery/sw/nand_dump.c:328-336 | the header is 7 bytes: `bytes_read` little-endian in bytes 0-3 and the low 24 bits of `row` little-endian in bytes 4-6 |
| NandDump.WordCountCovers | fpga_nand_recovery/sw/nand_dump.c:339 | the 32-bit word count covers `bytes_read` with less than one word to spare, except that the addition wraps for the three largest counts and then no word is read |
| NandDump.PageBytes | fpga_nand_recovery/sw/nand_dump.c:339-350 | the page data on the wire is exactly `bytes_read` bytes long (none when the word count wraps) |
| NandDump.StreamPageWords | fpga_nand_recovery/sw/nand_dump.c:339-350 | the word loop sends byte `i % 4` of word `i / 4` for every `i < bytes_read`, clipping only the last word |
| NandDump.DoReadPage | fpga_nand_recovery/sw/nand_dump.c:209-244 | a timeout sends `ERR:PAGE_TIMEOUT`; otherwise the `PAGE_OK` line with the hex count, the 4-byte little-endian length, then the page data |
| NandDump.SendPage | fpga_nand_recovery/sw/nand_dump.c:318-350 | one page sends the 7-byte ERR marker alone on a timeout, otherwise its header and its data |
| NandDump.SendBlock | fpga_nand_recovery/sw/nand_dump.c:309-358 | a block sends the frames of its rows `block * ppb + page` in page order, then a progress line when `block & 0x3F == 0` |
| NandDump.SendProgress | fpga_nand_recovery/sw/nand_dump.c:353-358 | the progress line is `"\r\nBLK="`, the 8 hex digits of the block and CR LF, sent only for every 64th block |
| NandDump.SendGeometry | fpga_nand_recovery/sw/nand_dump.c:294-303 | the geometry line is the labelled hex values of data size, spare total, pages per block and the block count, ended by CR LF |
| NandDump.SendAllBlocks | fpga_nand_recovery/sw/nand_dump.c:308-359 | the nested loops send the frames and progress lines of all 4096 blocks, in block order, and visit the rows `VisitedRows` |
| NandDump.DoDumpAll | fpga_nand_recovery/sw/nand_dump.c:246-362 | a failed ID read sends `ERR:DUMP_ID_FAIL`; otherwise `DUMP_START`, the geometry line, every block's frames and `DUMP_END`, visiting the rows block-major |
| NandDump.BlockStartIsProduct | fpga_nand_recovery/sw/nand_dump.c:310 | the first row of block `b` is `b * pages_per_block` |
| NandDump.VisitedRowsConsecutive | fpga_nand_recovery/sw/nand_dump.c:308-310 | the dump visits rows 0, 1, 2, ... in strictly increasing order, `blocks * pages_per_block` of them |
| NandDump.DumpRowsFit | fpga_nand_recovery/sw/nand_dump.c:292-314 | with 4096 blocks of at most 512 pages every visited row is below 2^21, so `row & 0xFFFFFF` loses nothing |
| NandDump.ColumnAddress | fpga_nand_recovery/sw/nand_dump.c:426-428 | the column, `ab[0]` OR `ab[1]` shifted left by 8, is the 16-bit value whose little-endian bytes are `ab[0], ab[1]` |
| NandDump.RowAddress | fpga_nand_recovery/sw/nand_dump.c:429 | the row, `ab[2]` OR `ab[3]` shifted by 8 OR `ab[4]` shifted by 16, is the 24-bit value whose little-endian bytes are `ab[2..4]` |
| NandDump.ReadCount | fpga_nand_recovery/sw/nand_dump.c:442-444 | the count, `cb[0]` OR `cb[1]` shifted left by 8, is the 16-bit value whose little-endian bytes are `cb[0], cb[1]` |
| HostReceiver.DecodeAsciiBytes | fpga_nand_recovery/sw/host_receiver.py:130 | decoding the bytes of ASCII text gives the text back |
| HostReceiver.Strip | fpga_nand_recovery/sw/host_receiver.py:91 | `strip()` returns a slice of its input that is empty or starts and ends with a non-whitespace character |
| HostReceiver.StripRemovesSpace | fpga_nand_recovery/sw/host_receiver.py:91 | only whitespace is removed, before and after the slice |
| HostReceiver.StripPadding | fpga_nand_recovery/sw/host_receiver.py:137 | stripping whitespace padding around a string that starts and ends with non-whitespace gives that string |
| HostReceiver.IndexOfIsFirst | fpga_nand_recovery/sw/host_receiver.py:89-90 | the split position is the first `\n` from the start, or the end when there is none |
| HostReceiver.SplitJoined | fpga_nand_recovery/sw/host_receiver.py:136 | `split("\n")` of a separator-free piece, a separator and a rest is that piece followed by the split of the rest |
| HostReceiver.ParsePlainDigits | fpga_nand_recovery/sw/host_receiver.py:139 | `int(s, 16)` of a non-empty string of hex digits is their value |
| HostReceiver.PyHexIntHex32 | fpga_nand_recovery/sw/host_receiver.py:139 | `int(·, 16)` of the firmware's 8 hex digits gives back the value it printed |
| HostReceiver.DecodeHeader | fpga_nand_recovery/sw/host_receiver.py:152-162 | a header is a page error iff bytes 4-6 are `ERR`; an accepted header has `0 < page_bytes <= 32768` and a 24-bit row |
| HostReceiver.HeaderRoundTrip | fpga_nand_recovery/sw/host_receiver.py:157-158 | decoding the firmware's header returns `bytes_read` and `row & 0xFFFFFF` when the length is in range, `BadLength` when it is not, and a page error iff the row's low 24 bits spell `ERR` |
| HostReceiver.ErrMarkerIsPageError | fpga_nand_recovery/sw/host_receiver.py:152-155 | the firmware's timeout marker `FF FF FF FF 'E' 'R' 'R'` is read as a page error |
| HostReceiver.ErrRowMisread | fpga_nand_recovery/sw/host_receiver.py:152 | a real header for row 0x525245 is taken for the error marker |
| HostReceiver.DumpHeadersNotMisread | fpga_nand_recovery/sw/host_receiver.py:152-155 | no header of a full dump is taken for the error marker, since its rows stay below 0x525245 |
| HostReceiver.LinesAppend | fpga_nand_recovery/sw/host_receiver.py:89-90 | the complete lines of a buffer that ends in `\n`, followed by more bytes, are its lines followed by theirs |
| HostReceiver.FirstMatching | fpga_nand_recovery/sw/host_receiver.py:89-94 | the result is a stripped line that starts with the target, or none iff no line does |
| HostReceiver.FirstMatchingAppend | fpga_nand_recovery/sw/host_receiver.py:89-94 | over two runs of lines, the first match is the first run's match if it has one, otherwise the second run's |
| HostReceiver.AsWrittenGeometryTargetNeverMatches | fpga_nand_recovery/sw/host_receiver.py:111 | no stripped line starts with `"  page_data="`, whatever the device sends |
| HostReceiver.GeometryLineMatches | fpga_nand_recovery/sw/host_receiver.py:111 | the firmware's geometry line matches the target `"page_data="` |
| HostReceiver.ScanPart | fpga_nand_recovery/sw/host_receiver.py:136-139 | one turn of the part loop keeps an error, and otherwise adds at most one block number after those already found |
| HostReceiver.ScanPartsBadIsGenuine | fpga_nand_recovery/sw/host_receiver.py:136-139 | the loop raises only for a stripped part that starts with `BLK=` and whose rest `int(·, 16)` rejects |
| HostReceiver.ScanPartsStaysBad | fpga_nand_recovery/sw/host_receiver.py:139 | once a part raises, the later parts change nothing |
| HostReceiver.ProgressLineReadBack | fpga_nand_recovery/sw/host_receiver.py:134-139 | scanning the firmware's progress line for block `b` reports exactly `[b]` |
| HostCapture.ReadFrom | fpga_nand_recovery/sw/host_receiver.py:126 | a read returns at most `n` bytes off the front of the stream, nothing once the schedule is spent, and uses up one scheduled timeout |
| HostCapture.SerialPort.Read | fpga_nand_recovery/sw/host_receiver.py:126 | `read(n)` returns at most `n` of the next incoming bytes, as many as arrive before the timeout, and consumes them; the port moves to the state `ReadFrom` gives and the request for `n` is recorded |
| HostCapture.SerialPort.Write | fpga_nand_recovery/sw/host_receiver.py:102 | a write appends its bytes to what the device has received |
| HostCapture.ReadRun | fpga_nand_recovery/sw/host_receiver.py:85-88 | the bytes a run of reads returns are the front of the stream, in order |
| HostCapture.WaitForLine | fpga_nand_recovery/sw/host_receiver.py:81-95 | the bytes received are exactly what `calls` reads of 256 bytes return, and the port ends in the state they leave; the result is the first stripped line among them that starts with the target, or none; the wait stops at the first read after which a complete line matches, and with no match it makes every read the budget allows; nothing is written |
| HostCapture.CutLines | fpga_nand_recovery/sw/host_receiver.py:89-94 | cutting lines off the buffer finds the first matching stripped line of everything received so far; the lines cut and the rest make up the buffer; with no match no line feed is left |
| HostCapture.AsWrittenGeometryWaitUsesBudget | fpga_nand_recovery/sw/host_receiver.py:111 | waiting for `"  page_data="` always makes every read the budget allows, whatever the device sends |
| HostCapture.PageRunFacts | fpga_nand_recovery/sw/host_receiver.py:164-173 | the page loop returns the front of the stream, never more than `page_bytes`, short only when the device has gone quiet for good, asking for between 1 and 4096 bytes per read |
| HostCapture.ReadPageData | fpga_nand_recovery/sw/host_receiver.py:164-173 | the loop returns what `PageRun` gives, leaves the port in its state and asks for its sizes; the page is complete iff it holds `page_bytes` bytes |
| HostCapture.ScanProgress | fpga_nand_recovery/sw/host_receiver.py:136-139 | the part loop over `text.split("\n")` computes `ScanParts` of the parts |
| HostCapture.ReadText | fpga_nand_recovery/sw/host_receiver.py:126-149 | after a short header, 64 more bytes are read off the front of the stream; the text ends the capture iff it contains `DUMP_END`; otherwise it raises iff it contains `BLK=` and a progress number does not parse; anything else is skipped |
| HostCapture.TextVerdictGenuine | fpga_nand_recovery/sw/host_receiver.py:134-139 | a text is judged a crash only for a stripped part that starts with `BLK=` and whose rest `int(·, 16)` rejects |
| HostCapture.PassFacts | fpga_nand_recovery/sw/host_receiver.py:126-173 | one pass of the loop reads the front of the stream; a text pass carries the verdict on its own bytes; a pass ends the loop only on `DUMP_END`, a bad progress number or a page that stopped coming, and otherwise is a skipped header, a complete page or a text that goes on |
| HostCapture.CapturePass | fpga_nand_recovery/sw/host_receiver.py:126-173 | one turn of the loop body makes the pass `PassFrom` gives for the port's state: the same frame, end, new state and request sizes |
| HostCapture.CaptureRunFacts | fpga_nand_recovery/sw/host_receiver.py:120-178 | the passes of the loop read the front of the stream, one after another; every pass but the last goes on; the loop finishes only on a text holding `DUMP_END`, crashes only on a bad progress number, and otherwise stalls on a page that stopped coming or a spent schedule |
| HostCapture.CaptureRunOutcome | fpga_nand_recovery/sw/host_receiver.py:120-178 | the loop finishes, stalls or crashes, a crash names a genuine bad block number, and the complete pages lie in order in the stream, each right after an accepted header for its length |
| HostCapture.OrderedPages | fpga_nand_recovery/sw/host_receiver.py:157-178 | pages in order means each page is the payload of an accepted header at its start, ending before the next one starts |
| HostCapture.PageAppended | fpga_nand_recovery/sw/host_receiver.py:176-178 | a page read after an accepted header extends the ordered list of captured pages |
| HostCapture.CaptureLoop | fpga_nand_recovery/sw/host_receiver.py:120-178 | the loop runs as `CaptureRun` says: the same passes and end, the port in the state it leaves, the request sizes it gives; the file is the concatenation of the complete pages; `bytes_captured` is its length and `pages_captured` their number |
| HostCapture.CaptureDump | fpga_nand_recovery/sw/host_receiver.py:98-178 | sends `D`; waits for `DUMP_START` as `Waited` says, and with no such line reads nothing more and writes nothing; otherwise waits for the geometry line (with the corrected target of the Findings row for fpga_nand_recovery/sw/host_receiver.py:111) and then runs `CaptureRun` on what follows, with its passes, end and file; a crash names a genuine bad block number and the pages lie in order in the stream |

## Left out

- Win32 and SetupDi calls are left out: `DeviceIoControl`, `CreateFileW`, `FindFirstVolumeW`/`FindNextVolumeW`, `GetVolumeInformationW`, `GetDiskFreeSpaceExW` and the registry-property calls. Their results are inputs to the model.
- `FatalError` and `exit(1)` are left out. A failed `FindFirstVolumeW` becomes the `None` result.
- The buffer-doubling retry of `QueryPartitionLayout` is left out. It depends only on the IOCTL's error code. The model starts from a successful call.
- `FormatBytes` (floating point), `PrintDriveInfo`, `FormatGUID`, `BusTypeName` and the other display tables are left out: they are output only.
- Case folding covers ASCII letters only. `tolower`/`towlower` beyond ASCII depends on the locale.
- Firmware register access (`Xil_In32`/`Xil_Out32`) and the polling in `nand_wait_done` are left out. A page read's outcome is an input.
- The UART driver, the command loop, the FPGA version check and the unused `plane_count` are left out.
- In `do_read_id`, only the geometry decode is modelled. Its text output is not.
- On the host, `find_serial_port`, `interactive_mode` (a second thread), argparse and the console printing are left out. So is the "Unexpected data" message.
- `time.time()`, elapsed time and throughput are left out. Each timeout becomes the number of read calls the port's schedule allows.
- The timing heuristic that tells text lines from binary frames is left out. The schedule decides which reads come back short.
- HostCapture.ReadPageData: where the Python loop sleeps and retries forever once the device stops sending, the model returns an incomplete page. CaptureLoop then ends with `Stalled`.
- HostCapture.WaitForLine: bytes received after the matching line are dropped when the call returns, as in the source, because `buf` is local to each call. The remainder of a split is kept only within one call.
- HostCapture.CaptureLoop: once the device goes quiet, the Python `while True` loop (host_receiver.py:120-149) spins forever: `read(7)` and `read(64)` both return nothing, the empty text is reported as unexpected, and the loop goes round again. The model ends the loop with `Stalled` when the port's schedule of reads is spent.
- HostCapture.CaptureLoop: the `ValueError` that `int(part[4:], 16)` raises is modelled as a `Crashed` outcome, not as an exception that escapes `capture_dump`.
- NandDump.Hex32: its own contract states the length and that every character is an upper-case hex digit. The value it spells is stated by HostReceiver.Hex32Value and NandDump.SendHex32.
- PartitionLayout.KeptEntriesAreNonEmptySlots: a GPT name that fills all 36 characters of `Name[36]` has no NUL. For it, main.cpp:418 reads past the field into the next `PARTITION_INFORMATION_EX` slot, or past the buffer for the last slot. The model keeps the 36 characters (`PartitionLayout.GptNameUpToNul`), so the GPT fields are copied faithfully only for names that contain a NUL.
- PartitionLayout.QueryPartitionLayout: the entries it appends carry the same GPT-name over-read as described on the line above; the model keeps the 36 characters.
- DescriptorStrings.GetDeviceRegistryStringProperty: REG_SZ data with no NUL, and REG_MULTI_SZ data whose walk does not reach an empty string inside the buffer, are excluded by its requires. For such data main.cpp:565 and main.cpp:571-576 read past the end of the heap buffer, and what they then return depends on memory the model does not represent.
- Python's `strip()` and `int()` are modelled on ASCII whitespace only. The decoded text holds ASCII and U+FFFD only.

## Findings

| source | as written | input that shows it | evidently intended | confidence | as-written member | corrected member |
|---|---|---|---|---|---|---|
| fpga_nand_recovery/sw/host_receiver.py:111 | `wait_for_line(ser, "  page_data=", timeout=5)`. `wait_for_line` strips each line before comparing, so no line can start with two blanks. The call always times out, and the page bytes that arrive during those 5 seconds are consumed and discarded. | the geometry line `"  page_data=00000800 spare=..."` that nand_dump.c:295-303 sends right after `DUMP_START` | wait for `"page_data="`, which the stripped geometry line does start with | not executed | HostReceiver.AsWrittenGeometryTargetNeverMatches (and HostCapture.AsWrittenGeometryWaitUsesBudget) | HostReceiver.GeometryLineMatches (the target HostCapture.CaptureDump uses) |
| main.cpp:488 | `for (i = 0; i < extents.NumberOfDiskExtents; ++i)` also runs after `ERROR_MORE_DATA`, when the count exceeds the one `Extents` slot that `VOLUME_DISK_EXTENTS` holds, so it reads `Extents[1]` past the structure | a volume spanning disks 5 and 3, asked about disk 3: the count is 2, the slot holds disk 5 | scan only the extents the structure holds, `min(NumberOfDiskExtents, 1)` | not executed | VolumeScan.MoreDataOverreadExample | VolumeScan.OnTargetDisk (with VolumeScan.BoundedScanAgrees) |
