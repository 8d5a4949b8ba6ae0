# The emulated Wii `/dev/fs` device

This project models the high-level emulation of the Wii's `/dev/fs` IOS device,
as in `Source/Core/Core/Src/IPC_HLE/WII_IPC_HLE_Device_fs.cpp`. A guest program
talks to the device through command blocks in emulated RAM. The device serves
them from a folder on the host:

- **Open** resets the scratch folder `tmp`. It creates the running title's
  save-data folder `title/<title>/<game>/data/nocopy/`, falling back to
  `00010000` / `f00dbeef` when the disc reports zero. It answers with the device id.
- **IOCtl** (scalar requests) zero-fills the output buffer. It dispatches on the
  parameter and stores the status word at offset 4 of the command block. The
  commands are GET_STATS, CREATE_DIR, SET_ATTR, GET_ATTR, DELETE_FILE,
  RENAME_FILE and CREATE_FILE.
- **IOCtlV** (vectored requests) zero-fills every payload buffer. It then
  serves READ_DIR, which counts or packs the names of a directory's entries,
  and GETUSAGE, which counts 16 KiB blocks and entries. It also stores the
  status word at offset 4.

The model has seven modules:

- `GuestMemory`: byte values, big-endian words, and a functional `Store` on
  byte sequences. It also holds the methods that write into the RAM array.
- `HostFs`: the host filesystem, a map from path to `File(size)` or `Dir`, and
  the class `Host` whose methods change it.
- `HomeDir`: the home-directory path, the identifier fallbacks, and
  `%08x` formatting.
- `DirListing`: a directory listing, the packed-name buffer of READ_DIR, and the
  u64 size sum of GETUSAGE.
- `FsSpec`: one pure function per request. Each gives the memory, the host
  entries and the status the request leaves.
- `FsDevice`: the class `Device`, with the guest RAM as an `array<u8>` and the
  host. Each request handler's `ensures` equates the new RAM, the new host
  entries and the status with a pure function of the old state: the matching
  `FsSpec` function for IOCtl, IOCtlV and their handlers, `HomeDir.OpenedEntries`
  for Open, `DirListing.Packed` for the READ_DIR copy loop, and
  `FsSpec.DecodeAttrRequest` with a constant status for SET_ATTR.
- `FsProperties`: the lemmas stating what those functions mean: status codes,
  byte layouts, and effects on the host.

Guest words are big-endian. Status codes are 32-bit two's-complement:

| code | meaning |
|---|---|
| 0 | OK |
| -6 | directory or file not found |
| -101 | invalid argument |
| -105 | file exists |
| -106 | file does not exist |
| -128 | fatal |

The request codes are the Wii's own: 2 GET_STATS, 3 CREATE_DIR, 4 READ_DIR,
5 SET_ATTR, 6 GET_ATTR, 7 DELETE_FILE, 8 RENAME_FILE, 9 CREATE_FILE and
0x0C GETUSAGE.

Behaviours of the error paths, modelled as the code has them:

- GET_ATTR on an existing path with an output buffer that is not 76 bytes
  skips the record and answers 0 (`FsProperties.GetAttrOutcome`).
- An unknown IOCtl parameter raises a panic alert and is answered with -128
  (`FsProperties.IoctlEnvelope`); an unknown IOCtlV parameter is answered
  with 0 (`FsProperties.IoctlVEnvelope`).
- CREATE_FILE answers -128 when the host fails to create the file for a
  reason other than its existence (`FsProperties.CreateFileOutcome`).

Other behaviours of the code are modelled as written and stated as lemmas:

- SET_ATTR builds its path from the start of the request, so the owner and
  group ids become its first bytes (`FsProperties.SetAttrPathWindow`).
- READ_DIR takes its entry cap from the first word of the path buffer
  (`FsProperties.MaxEntriesFromPath`).
- Renaming a file onto itself deletes it and answers -106
  (`FsProperties.RenameOntoItself`).

## Model

Every source cell is in `Source/Core/Core/Src/IPC_HLE/WII_IPC_HLE_Device_fs.cpp`.

| member | source | states |
|---|---|---|
| FsDevice.Device.Open | Source/Core/Core/Src/IPC_HLE/WII_IPC_HLE_Device_fs.cpp:47-78 | Open always succeeds. The only change to RAM is the device id, stored big-endian at offset 4 of the command block. The host becomes `OpenedEntries`: tmp is cleared and remade, and with a volume the home path is created. |
| FsDevice.Device.IOCtl | Source/Core/Core/Src/IPC_HLE/WII_IPC_HLE_Device_fs.cpp:247-267 | Each request is handled. The new RAM and host are exactly `IoctlSpec` of the old state: fields read from the block, output buffer zero-filled, command executed, status word stored at +4. |
| FsDevice.Device.ExecuteCommand | Source/Core/Core/Src/IPC_HLE/WII_IPC_HLE_Device_fs.cpp:269-498 | Dispatching on the parameter gives exactly the memory, host and status of `ExecuteSpec`. An unknown parameter gives -128 with nothing changed. |
| FsDevice.Device.GetStats | Source/Core/Core/Src/IPC_HLE/WII_IPC_HLE_Device_fs.cpp:273-294 | The seven stores follow `GetStatsSpec`. `GetStatsRecord` shows that this is the 28-byte record at the output buffer, with status 0. |
| FsDevice.Device.CreateDir | Source/Core/Core/Src/IPC_HLE/WII_IPC_HLE_Device_fs.cpp:296-315 | The host changes as `CreateDirSpec` says: the full path of the directory at input +6 is created. RAM is not written. |
| FsDevice.Device.SetAttr | Source/Core/Core/Src/IPC_HLE/WII_IPC_HLE_Device_fs.cpp:317-339 | Always answers 0 and changes nothing. It returns the decoded owner, group and path (the path taken from input +0), plus the permissions and attribute. |
| FsDevice.Device.GetAttr | Source/Core/Core/Src/IPC_HLE/WII_IPC_HLE_Device_fs.cpp:341-386 | RAM and status follow `GetAttrSpec`: -106 for a missing path. Otherwise 0, and the record is written only into a 76-byte buffer. The host is untouched. |
| FsDevice.Device.DeleteFile | Source/Core/Core/Src/IPC_HLE/WII_IPC_HLE_Device_fs.cpp:389-411 | The host follows `DeleteFileSpec`: delete as a file, else as a directory, and answer 0 either way. |
| FsDevice.Device.RenameFile | Source/Core/Core/Src/IPC_HLE/WII_IPC_HLE_Device_fs.cpp:413-446 | The host and status follow `RenameFileSpec`: create the destination's folders, delete an existing destination, then rename. The answer is -106 on failure. |
| FsDevice.Device.CreateFile | Source/Core/Core/Src/IPC_HLE/WII_IPC_HLE_Device_fs.cpp:448-489 | The host and status follow `CreateFileSpec`: -105 for an existing path. Otherwise the parents and an empty file are created, answering 0, or -128 on failure. |
| FsDevice.Device.IOCtlV | Source/Core/Core/Src/IPC_HLE/WII_IPC_HLE_Device_fs.cpp:80-245 | Each request is handled. The new RAM is exactly `IoctlVSpec` of the old one: payloads zero-filled, READ_DIR or GETUSAGE run, status word stored at +4. |
| FsDevice.Device.ZeroPayloads | Source/Core/Core/Src/IPC_HLE/WII_IPC_HLE_Device_fs.cpp:85-91 | The loop of memsets leaves RAM equal to `ZeroAll`, every payload buffer cleared in order. `ZeroAllExact` shows which bytes are zero. |
| FsDevice.Device.ReadDir | Source/Core/Core/Src/IPC_HLE/WII_IPC_HLE_Device_fs.cpp:95-179 | RAM and status follow `ReadDirSpec`: path checks, then the count-only answer or the packed names and their number. |
| FsDevice.Device.PackNames | Source/Core/Core/Src/IPC_HLE/WII_IPC_HLE_Device_fs.cpp:150-172 | The copy loop stores exactly `Packed` of the first min(entries, cap) names at the buffer, each with one NUL, and returns that count. |
| FsDevice.Device.GetUsage | Source/Core/Core/Src/IPC_HLE/WII_IPC_HLE_Device_fs.cpp:181-234 | RAM and status follow `GetUsageSpec`: the block and entry counts go to payloads 0 and 1, with status 0. |
| DirListing.TotalSize | Source/Core/Core/Src/IPC_HLE/WII_IPC_HLE_Device_fs.cpp:208-212 | The summing loop returns the exact total of the entry sizes modulo 2^64, and the total itself when it fits in 64 bits. |
| DirListing.UnpackPacked | Source/Core/Core/Src/IPC_HLE/WII_IPC_HLE_Device_fs.cpp:157-172 | Splitting the packed buffer at its NULs gives back exactly the listed names, in order, when no name holds a NUL. |
| DirListing.StorePackedNext | Source/Core/Core/Src/IPC_HLE/WII_IPC_HLE_Device_fs.cpp:166-168 | One loop round keeps the packing invariant. The strcpy of name i with its terminator at the write pointer, then the extra NUL, extends the packed first i names to the first i+1. |
| HomeDir.NonZeroOr | Source/Core/Core/Src/IPC_HLE/WII_IPC_HLE_Device_fs.cpp:68-69 | The identifier used is never zero. It is the volume's own when that is non-zero and the fallback otherwise. |
| HomeDir.HexRoundTrip | Source/Core/Core/Src/IPC_HLE/WII_IPC_HLE_Device_fs.cpp:71 | Reading back the zero-padded hex digits that `%0nx` prints gives the number, when it fits in n digits. |
| HomeDir.Hex8 | Source/Core/Core/Src/IPC_HLE/WII_IPC_HLE_Device_fs.cpp:71 | `%08x` gives eight lower-case hexadecimal digits that spell the value, so the text is fully determined. |
| HomeDir.HomePath | Source/Core/Core/Src/IPC_HLE/WII_IPC_HLE_Device_fs.cpp:64-71 | The home path is the user dir, then "title/", eight lower-case hex digits of the title id, "/", eight of the game id, then "/data/nocopy/", with both fallbacks applied. |
| HomeDir.HomePathInjective | Source/Core/Core/Src/IPC_HLE/WII_IPC_HLE_Device_fs.cpp:64-71 | Two volumes share a home folder only if their effective title ids and game ids are equal. |
| HomeDir.ZeroIdsFallBack | Source/Core/Core/Src/IPC_HLE/WII_IPC_HLE_Device_fs.cpp:67-71 | A disc reporting zero ids gets the folder of title 00010000, game f00dbeef. |
| HostFs.WithParents | Source/Core/Core/Src/IPC_HLE/WII_IPC_HLE_Device_fs.cpp:73 | CreateFullPath keeps every existing entry and adds only directories above the path. When nothing on the way is read-only or a file, every directory above the path exists afterwards. |
| HostFs.WithoutTree | Source/Core/Core/Src/IPC_HLE/WII_IPC_HLE_Device_fs.cpp:53 | DeleteDirRecursively removes only the directory and what is beneath it, keeping read-only entries. The directory itself stays exactly when it is read-only or something beneath it stayed. On a non-directory it changes nothing. |
| FsProperties.IoctlEnvelope | Source/Core/Core/Src/IPC_HLE/WII_IPC_HLE_Device_fs.cpp:252-266 | The IOCtl status is one of 0, -105, -106 and -128, and the word at +4 decodes to it. An unknown parameter yields -128, an unchanged host, and only the zero-filled buffer plus that word in RAM. |
| FsProperties.ExecuteStatus | Source/Core/Core/Src/IPC_HLE/WII_IPC_HLE_Device_fs.cpp:491-497 | Every handler answers 0, -105, -106 or -128. The default branch answers -128 and changes nothing. |
| FsProperties.ZeroedOutExact | Source/Core/Core/Src/IPC_HLE/WII_IPC_HLE_Device_fs.cpp:258-261 | After the zero-fill, a byte inside the output buffer is zero and a byte outside it is unchanged. |
| FsProperties.IoctlWindow | Source/Core/Core/Src/IPC_HLE/WII_IPC_HLE_Device_fs.cpp:261-264 | Outside the status word, the RAM after IOCtl is what the handler left in the zero-filled RAM. |
| FsProperties.IoctlSilentHandlers | Source/Core/Core/Src/IPC_HLE/WII_IPC_HLE_Device_fs.cpp:269-497 | Every request other than GET_STATS and GET_ATTR leaves RAM as the zero-filled buffer plus the status word. |
| FsProperties.WordsAt | Source/Core/Core/Src/IPC_HLE/WII_IPC_HLE_Device_fs.cpp:283-292 | In a record of big-endian words, word k is the four bytes at offset 4k. |
| FsProperties.StatsWordsBytes | Source/Core/Core/Src/IPC_HLE/WII_IPC_HLE_Device_fs.cpp:283-292 | The GET_STATS record is the seven recorded constants 0x4000, 0x5717, 0x24a9, 0, 0x300, 0x163e and 0x1c1, back to back. |
| FsProperties.GetStatsRecord | Source/Core/Core/Src/IPC_HLE/WII_IPC_HLE_Device_fs.cpp:283-292 | The seven running-address stores write exactly the 28-byte record at the output buffer. The status is 0 and the host is unchanged. |
| FsProperties.StoredWordAt | Source/Core/Core/Src/IPC_HLE/WII_IPC_HLE_Device_fs.cpp:283-292 | Once a word record is stored, reading word k back gives the k-th word. |
| FsProperties.GetStatsWords | Source/Core/Core/Src/IPC_HLE/WII_IPC_HLE_Device_fs.cpp:283-292 | A guest reading word k of the GET_STATS answer gets the k-th recorded value, with status 0 and the host unchanged. |
| FsProperties.GetAttrOutcome | Source/Core/Core/Src/IPC_HLE/WII_IPC_HLE_Device_fs.cpp:354-384 | The status is -106 exactly when the path is not on the host, and 0 otherwise. RAM is unchanged for a missing path or a buffer that is not 76 bytes. The host is never changed. |
| FsProperties.AttrHead | Source/Core/Core/Src/IPC_HLE/WII_IPC_HLE_Device_fs.cpp:374-377 | On a zeroed record, the owner, group and path stores leave owner 0, group 0 and the path zero-padded to 64 bytes. |
| FsProperties.AttrTail | Source/Core/Core/Src/IPC_HLE/WII_IPC_HLE_Device_fs.cpp:378-381 | The three permission stores and the attribute store append 3, 3, 3, 0, and the last two bytes stay zero. |
| FsProperties.GetAttrRecordLayout | Source/Core/Core/Src/IPC_HLE/WII_IPC_HLE_Device_fs.cpp:372-382 | On a zero-filled 76-byte buffer, GET_ATTR's stores produce exactly the attribute record. |
| FsProperties.GetAttrOnZeroedBuffer | Source/Core/Core/Src/IPC_HLE/WII_IPC_HLE_Device_fs.cpp:347-384 | With a zero-filled 76-byte buffer: an existing path gets status 0 and its attribute record. A missing path gets -106 and an all-zero buffer. |
| FsProperties.PrefixesOfDirPath | Source/Core/Core/Src/IPC_HLE/WII_IPC_HLE_Device_fs.cpp:309-310 | Appending the separator to a directory name makes the directory itself, and every folder above it, a folder that CreateFullPath creates. |
| FsProperties.CreateDirOutcome | Source/Core/Core/Src/IPC_HLE/WII_IPC_HLE_Device_fs.cpp:299-313 | Always 0, with RAM unchanged. No entry is removed or altered, and the only entries added are directories among the folders of the path plus "/", which CreateFullPath makes. When nothing on the way is read-only or a file, the directory and every folder above it exist. |
| FsProperties.SetAttrOutcome | Source/Core/Core/Src/IPC_HLE/WII_IPC_HLE_Device_fs.cpp:317-338 | SET_ATTR answers 0 and changes neither RAM nor the host. |
| FsProperties.SetAttrPathWindow | Source/Core/Core/Src/IPC_HLE/WII_IPC_HLE_Device_fs.cpp:319-323 | The SET_ATTR path is built from the 64 bytes at the start of the request, so the owner and group ids are its first six bytes. |
| FsProperties.DeleteFileOutcome | Source/Core/Core/Src/IPC_HLE/WII_IPC_HLE_Device_fs.cpp:392-409 | Always 0, with RAM unchanged; at most the path itself is removed. The path is absent afterwards iff it was absent before, or it is writable and is a file or an empty directory. |
| FsProperties.RenameOutcome | Source/Core/Core/Src/IPC_HLE/WII_IPC_HLE_Device_fs.cpp:416-444 | The status is 0 or -106. It is 0 iff source and destination differ, both are writable, the source exists (or is a folder made on the way) and the destination is free or a file. On success the source is gone and the destination holds the source's entry. No other existing entry changes, the only other entries added are directories above the destination, and when nothing blocks them those directories (other than a renamed source) exist. On -106 an existing writable destination file has already been deleted, and any destination that stays is unchanged. |
| FsProperties.RenameOntoItself | Source/Core/Core/Src/IPC_HLE/WII_IPC_HLE_Device_fs.cpp:424-442 | Renaming a writable file onto itself deletes the file and answers -106. |
| FsProperties.CreateFileOutcome | Source/Core/Core/Src/IPC_HLE/WII_IPC_HLE_Device_fs.cpp:469-487 | An existing path gets -105 and nothing changes. Otherwise the status is 0 iff the path is writable and its parents exist after CreateFullPath, and 0 means a new empty file; failure gives -128. No existing entry changes, and the only entries added are directories above the path and, on success, the file itself. With no obstacles the status is 0. |
| FsProperties.ZeroAllExact | Source/Core/Core/Src/IPC_HLE/WII_IPC_HLE_Device_fs.cpp:85-91 | After the payload zero-fill, a byte inside any payload buffer is zero and every other byte is unchanged. |
| FsProperties.IoctlVEnvelope | Source/Core/Core/Src/IPC_HLE/WII_IPC_HLE_Device_fs.cpp:82-244 | The IOCtlV status is 0, -6 or -101, and the word at +4 decodes to it. The host is untouched. An unknown parameter answers 0 and leaves only the zeroed payloads and that word. |
| FsProperties.ReadDirStatus | Source/Core/Core/Src/IPC_HLE/WII_IPC_HLE_Device_fs.cpp:116-129 | A missing path answers -6 and a non-directory answers -101, both writing nothing. A directory answers 0. |
| FsProperties.ReadDirCount | Source/Core/Core/Src/IPC_HLE/WII_IPC_HLE_Device_fs.cpp:141-147 | With one input and one payload buffer, the payload receives the number of entries as a 32-bit word, and every other byte of RAM is as it was. |
| FsProperties.NulFreePrefix | Source/Core/Core/Src/IPC_HLE/WII_IPC_HLE_Device_fs.cpp:157-168 | The names that fit under the cap are NUL-free when all names are. |
| FsProperties.ReadDirNames | Source/Core/Core/Src/IPC_HLE/WII_IPC_HLE_Device_fs.cpp:148-175 | Payload 0 starts with the first min(entries, cap) names, NUL-terminated, which split back into exactly those names in order. The rest of payload 0 is zero, payload 1 holds the count, and every byte outside payload 0 and the count word is as it was. |
| FsProperties.PackedAndCounted | Source/Core/Core/Src/IPC_HLE/WII_IPC_HLE_Device_fs.cpp:150-174 | After memset, packing and storing the count in a separate buffer, the names, the zero tail and the count all survive. |
| FsProperties.MaxEntriesFromPath | Source/Core/Core/Src/IPC_HLE/WII_IPC_HLE_Device_fs.cpp:150 | The READ_DIR cap is the first big-endian word of input buffer 0, the same bytes that start the path. |
| FsProperties.GetUsageOutcome | Source/Core/Core/Src/IPC_HLE/WII_IPC_HLE_Device_fs.cpp:193-232 | GETUSAGE always answers 0 and leaves the host alone. Payload 0 decodes to the block count and payload 1 to the entry count, and every other byte of RAM is as it was. |
| FsProperties.UsageMeaning | Source/Core/Core/Src/IPC_HLE/WII_IPC_HLE_Device_fs.cpp:197-229 | A non-directory counts (0, 0). A directory's entry count is the number of entries when it fits in 32 bits. Its block count is the total size divided by 16 KiB, rounded down, when that fits. |
| FsProperties.UsageExample | Source/Core/Core/Src/IPC_HLE/WII_IPC_HLE_Device_fs.cpp:197-229 | Two 16 KiB files in a directory count 2 blocks and 2 entries; a non-directory counts 0 and 0. |
| FsProperties.OpenResetsTmp | Source/Core/Core/Src/IPC_HLE/WII_IPC_HLE_Device_fs.cpp:49-55 | Whether tmp was a directory before (and is cleared) or absent with nothing beneath it (and is made), after Open tmp is a directory and everything left beneath it is something the host refused to delete. |
| FsProperties.OpenCreatesHome | Source/Core/Core/Src/IPC_HLE/WII_IPC_HLE_Device_fs.cpp:57-74 | With a volume and no obstacle, Open leaves title/<title>/<game>/data/nocopy and every folder above it as directories. |

## Left out

- **Host filesystem** (`File::`). It is a flat map from path to entry. The set
  `readOnly` stands for every path where the host refuses a change, which
  makes each primitive's failure deterministic. Timestamps, contents,
  permissions and I/O errors are not modelled.
- **File::Rename.** It moves a single entry: renaming a directory does not
  move what is beneath it.
- **HLE_IPC_BuildFilename.** It is a function parameter `build` from the
  64-byte guest field to a host path. Sandbox containment of the result is not
  claimed.
- **CFileSearch, SplitPath and File::GetSize.** READ_DIR and GETUSAGE take the
  directory listing as a `Listed` sequence in the host's enumeration order. The
  host search itself is not part of this model. The listing is a separate
  argument, not derived from the host map: its names and sizes need not match
  the entries beneath the directory, and no lemma relates the two.
- **VolumeHandler.** The title id (already byte-swapped) and the game id are
  given as a `Volume` value. Reading them from the disc is not part of this
  model.
- **SIOCtlVBuffer.** Its decoding of the vector table is given as a
  `VectorRequest` value.
- **Request codes.** The IOCTL codes come from a header that is not part of
  this model. The Wii's own values are used.
- **Logging.** Logging, `PanicAlert` and `_dbg_assert_` are left out: they
  have no effect on memory or status.
- **Memory:: byte order.** The `Memory::Write_U32`/`Read_U32` family is taken
  to be big-endian, as on the Wii. Those functions are not part of this model.
- **Overflows** (strcpy at line 166, memcpy at line 377, sprintf into
  `Path[260+1]` at line 71). They are excluded by `requires` clauses
  (`ReadDirSafe`, `GetAttr`, `Open`). What the code does when these buffers
  overflow is not modelled.
- **Guest addresses outside emulated RAM.** The `requires` clauses of the
  handlers (`FsSpec.ExecuteSafe`, `FsSpec.IoctlSafe`, `FsSpec.ReadDirSafe`,
  `FsSpec.GetUsageSafe`, `FsSpec.IoctlVSafe`, `FsDevice.Device.Open`,
  `FsDevice.Device.GetStats`) demand that every guest-supplied buffer lies
  inside RAM. The source checks none of them, e.g. GET_STATS writes 28 bytes
  at the output address whatever its declared size. What `Memory::` does
  with an out-of-range address is not modelled.
- **Too few vector entries.** `FsSpec.ReadDirSafe` and `FsSpec.GetUsageSafe`
  require at least one input buffer, and two payload buffers except in
  READ_DIR's count-only case. The source indexes `InBuffer[0]`,
  `PayloadBuffer[0]` and `PayloadBuffer[1]` without checking (GETUSAGE has
  only a debug assertion). A request with fewer entries is not modelled.
- **Orphan entries in the flat host map.** `HostFs.WithParents` adds every
  missing, writable prefix directory even when a prefix above it is a file
  or a read-only missing folder, and `HostFs.WithoutTree` can remove a
  sub-directory while a read-only entry beneath it stays. A real host
  refuses both; the model can leave an entry whose parent folder is missing
  or is a file.
- **NUL bytes in host names.** The names the host lists are assumed to
  contain no NUL, which is required for `UnpackPacked` and
  `FsProperties.ReadDirNames`.
- FsProperties.ReadDirNames: assumes that payload 0 and payload 1's count word
  do not overlap. The source does not check this, and without it the count
  overwrites part of the names.
- FsProperties.GetUsageOutcome: assumes that the two payload words do not
  overlap. Otherwise the entry count overwrites the block count.
- FsProperties.IoctlWindow: describes memory only away from the status word.
  The status word overwrites whatever the handler stored there.
- FsDevice.Device.Open: the `mode` argument is accepted and ignored, as in the
  source. Open also always succeeds, as in the source.
