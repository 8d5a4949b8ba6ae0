/** What one request to the filesystem device does, as pure functions of the
    guest memory and the host filesystem before it.  The device's methods
    (module FsDevice) are proved to leave exactly these results behind; the
    properties of the protocol are lemmas about these functions (module
    FsProperties). */
module FsSpec {
  import opened GuestMemory
  import opened HostFs
  import opened DirListing

  /* Status codes written back to the guest. */
  const ResultOk: s32 := 0
  const DirFileNotFound: s32 := -6
  const InvalidArgument: s32 := -101
  const FileExist: s32 := -105
  const FileNotExist: s32 := -106
  const ResultFatal: s32 := -128

  /* Request parameter codes.  The enumeration is declared in
     WII_IPC_HLE_Device_fs.h, which is not part of this model; these are the
     values of the console's filesystem module that it mirrors. */
  const IoctlGetStats: u32 := 0x02
  const IoctlCreateDir: u32 := 0x03
  const IoctlvReadDir: u32 := 0x04
  const IoctlSetAttr: u32 := 0x05
  const IoctlGetAttr: u32 := 0x06
  const IoctlDeleteFile: u32 := 0x07
  const IoctlRenameFile: u32 := 0x08
  const IoctlCreateFile: u32 := 0x09
  const IoctlvGetUsage: u32 := 0x0C

  predicate KnownIoctl(p: u32) {
    p in {IoctlGetStats, IoctlCreateDir, IoctlSetAttr, IoctlGetAttr,
          IoctlDeleteFile, IoctlRenameFile, IoctlCreateFile}
  }

  /** HLE_IPC_BuildFilename, which is not part of this model: some function
      from the raw bytes of a guest path field to a host path. */
  type BuildFilename = Bytes -> Path

  /** The width of a guest path field. */
  const PathField: nat := 64
  /** The size GET_ATTR expects of its output buffer. */
  const AttrRecordSize: nat := 76
  /** GETUSAGE counts usage in blocks of 16 KiB. */
  const BlockSize: nat := 16 * 1024

  const U32Modulus: int := 0x1_0000_0000

  /** The host path named by the 64-byte field at `addr`. */
  function PathAt(m: Bytes, addr: nat, build: BuildFilename): Path
    requires addr + PathField <= |m|
  {
    build(m[addr..addr + PathField])
  }

  /** The memory, host filesystem and status a request leaves behind. */
  datatype Outcome = Outcome(mem: Bytes, entries: Entries, status: s32)

  /* ---------------------------------------------------------------- */
  /* Scalar requests (IOCtl / ExecuteCommand)                          */

  /** The request record's fields at +0xC, +0x10, +0x14, +0x18 and +0x1C. */
  datatype IoctlRecord = IoctlRecord(parameter: u32, bufferIn: u32, bufferInSize: u32,
                                     bufferOut: u32, bufferOutSize: u32)

  function IoctlFields(m: Bytes, cmd: nat): IoctlRecord
    requires cmd + 0x20 <= |m|
  {
    IoctlRecord(Load32(m, cmd + 0xC), Load32(m, cmd + 0x10), Load32(m, cmd + 0x14),
                Load32(m, cmd + 0x18), Load32(m, cmd + 0x1C))
  }

  /** The big-endian concatenation of a list of words. */
  function Words(ws: seq<u32>): (r: Bytes)
    ensures |r| == 4 * |ws|
  {
    if ws == [] then [] else BE32(ws[0]) + Words(ws[1..])
  }

  /** The seven words GET_STATS answers with, taken from a real console. */
  const StatsWords: seq<u32> := [0x0000_4000, 0x0000_5717, 0x0000_24a9, 0x0000_0000,
                                 0x0000_0300, 0x0000_163e, 0x0000_01c1]

  /** The fields CREATE_FILE and SET_ATTR decode from their input buffer. */
  datatype AttrRequest = AttrRequest(ownerId: u32, groupId: u16, path: Path,
                                     ownerPerm: u8, groupPerm: u8, otherPerm: u8, attributes: u8)

  /** Decodes owner (+0), group (+4), a path at +`pathAt` and the four
      permission and attribute bytes at +70..+73. */
  function DecodeAttrRequest(m: Bytes, bufIn: nat, pathAt: nat, build: BuildFilename): (r: AttrRequest)
    requires pathAt <= 6 && bufIn + 74 <= |m|
    ensures r.path == PathAt(m, bufIn + pathAt, build)
    ensures BE32(r.ownerId) == m[bufIn..bufIn + 4] && BE16(r.groupId) == m[bufIn + 4..bufIn + 6]
  {
    AttrRequest(Load32(m, bufIn), Load16(m, bufIn + 4), PathAt(m, bufIn + pathAt, build),
                m[bufIn + 70], m[bufIn + 71], m[bufIn + 72], m[bufIn + 73])
  }

  /** The record GET_ATTR answers with, when the output buffer was zeroed:
      owner 0, group 0, the host path, zero padding, permissions 3, 3, 3,
      attributes 0 and two untouched bytes. */
  function AttrRecord(name: Path): (r: Bytes)
    requires |name| <= PathField
    ensures |r| == AttrRecordSize
  {
    BE32(0) + BE16(0) + name + Zeros(PathField - |name|) + [3, 3, 3, 0] + Zeros(2)
  }

  /** GET_ATTR's writes, in the order the handler makes them: owner at +0,
      group at +4, the name at +6, then the three permission bytes and the
      attribute byte at +70..+73. */
  function AttrWrites(m: Bytes, out: nat, name: Path): (r: Bytes)
    requires |name| <= PathField && out + 74 <= |m|
    ensures |r| == |m|
  {
    var m1 := Store(m, out, BE32(0));
    var m2 := Store(m1, out + 4, BE16(0));
    var m3 := Store(m2, out + 6, name);
    var m4 := Store(m3, out + 70, [3]);
    var m5 := Store(m4, out + 71, [3]);
    var m6 := Store(m5, out + 72, [3]);
    Store(m6, out + 73, [0])
  }

  /** What each handler needs of memory: the fields it reads and the bytes it
      writes lie inside guest memory, and GET_ATTR's name fits its field. */
  predicate ExecuteSafe(r: IoctlRecord, m: Bytes, e: Entries, build: BuildFilename) {
    var p, bufIn, out := r.parameter, r.bufferIn, r.bufferOut;
    (p == IoctlGetStats ==> out + 28 <= |m|) &&
    (p == IoctlCreateDir ==> bufIn + 80 <= |m|) &&
    (p == IoctlSetAttr ==> bufIn + 74 <= |m|) &&
    (p == IoctlGetAttr ==>
       bufIn + PathField <= |m| &&
       (r.bufferOutSize == AttrRecordSize && PathAt(m, bufIn, build) in e ==>
          out + 74 <= |m| && |PathAt(m, bufIn, build)| <= PathField)) &&
    (p == IoctlDeleteFile ==> bufIn + PathField <= |m|) &&
    (p == IoctlRenameFile ==> bufIn + 2 * PathField <= |m|) &&
    (p == IoctlCreateFile ==> bufIn + 74 <= |m|)
  }

  /** GET_STATS's seven word stores, with a running address. */
  function GetStatsSpec(m: Bytes, e: Entries, out: nat): (o: Outcome)
    requires out + 28 <= |m|
    ensures |o.mem| == |m|
  {
    var m1 := Store(m, out, BE32(0x0000_4000));
    var m2 := Store(m1, out + 4, BE32(0x0000_5717));
    var m3 := Store(m2, out + 8, BE32(0x0000_24a9));
    var m4 := Store(m3, out + 12, BE32(0x0000_0000));
    var m5 := Store(m4, out + 16, BE32(0x0000_0300));
    var m6 := Store(m5, out + 20, BE32(0x0000_163e));
    Outcome(Store(m6, out + 24, BE32(0x0000_01c1)), e, ResultOk)
  }

  function CreateDirSpec(m: Bytes, e: Entries, ro: set<Path>, bufIn: nat, build: BuildFilename): (o: Outcome)
    requires bufIn + 80 <= |m|
  {
    Outcome(m, WithParents(e, ro, PathAt(m, bufIn + 6, build) + [Sep]), ResultOk)
  }

  function GetAttrSpec(m: Bytes, e: Entries, bufIn: nat, out: nat, outSize: nat,
                       build: BuildFilename): (o: Outcome)
    requires bufIn + PathField <= |m|
    requires outSize == AttrRecordSize && PathAt(m, bufIn, build) in e ==>
               out + 74 <= |m| && |PathAt(m, bufIn, build)| <= PathField
  {
    var name := PathAt(m, bufIn, build);
    if !IsDir(e, name) && name !in e then Outcome(m, e, FileNotExist)
    else if outSize == AttrRecordSize then Outcome(AttrWrites(m, out, name), e, ResultOk)
    else Outcome(m, e, ResultOk)
  }

  function DeleteFileSpec(m: Bytes, e: Entries, ro: set<Path>, bufIn: nat, build: BuildFilename): (o: Outcome)
    requires bufIn + PathField <= |m|
  {
    var p := PathAt(m, bufIn, build);
    var e' := if DeleteOk(e, ro, p) then e - {p}
              else if DeleteDirOk(e, ro, p) then e - {p}
              else e;
    Outcome(m, e', ResultOk)
  }

  function RenameFileSpec(m: Bytes, e: Entries, ro: set<Path>, bufIn: nat, build: BuildFilename): (o: Outcome)
    requires bufIn + 2 * PathField <= |m|
  {
    var src := PathAt(m, bufIn, build);
    var dst := PathAt(m, bufIn + PathField, build);
    var e1 := WithParents(e, ro, dst);
    var e2 := if dst in e1 && DeleteOk(e1, ro, dst) then e1 - {dst} else e1;
    if RenameOk(e2, ro, src, dst) then Outcome(m, Renamed(e2, src, dst), ResultOk)
    else Outcome(m, e2, FileNotExist)
  }

  function CreateFileSpec(m: Bytes, e: Entries, ro: set<Path>, bufIn: nat, build: BuildFilename): (o: Outcome)
    requires bufIn + 74 <= |m|
  {
    var p := DecodeAttrRequest(m, bufIn, 6, build).path;
    if p in e then Outcome(m, e, FileExist)
    else
      var e1 := WithParents(e, ro, p);
      if CreateFileOk(e1, ro, p) then Outcome(m, e1[p := File(0)], ResultOk)
      else Outcome(m, e1, ResultFatal)
  }

  /** ExecuteCommand: the handler the parameter selects; anything else is fatal. */
  function ExecuteSpec(r: IoctlRecord, m: Bytes, e: Entries, ro: set<Path>, build: BuildFilename): (o: Outcome)
    requires ExecuteSafe(r, m, e, build)
    ensures |o.mem| == |m|
  {
    var p := r.parameter;
    if p == IoctlGetStats then GetStatsSpec(m, e, r.bufferOut)
    else if p == IoctlCreateDir then CreateDirSpec(m, e, ro, r.bufferIn, build)
    else if p == IoctlSetAttr then Outcome(m, e, ResultOk)
    else if p == IoctlGetAttr then GetAttrSpec(m, e, r.bufferIn, r.bufferOut, r.bufferOutSize, build)
    else if p == IoctlDeleteFile then DeleteFileSpec(m, e, ro, r.bufferIn, build)
    else if p == IoctlRenameFile then RenameFileSpec(m, e, ro, r.bufferIn, build)
    else if p == IoctlCreateFile then CreateFileSpec(m, e, ro, r.bufferIn, build)
    else Outcome(m, e, ResultFatal)
  }

  /** The memory after IOCtl zero-fills the output buffer. */
  function ZeroedOut(m: Bytes, cmd: nat): Bytes
    requires cmd + 0x20 <= |m|
    requires IoctlFields(m, cmd).bufferOut + IoctlFields(m, cmd).bufferOutSize <= |m|
  {
    var r := IoctlFields(m, cmd);
    Store(m, r.bufferOut, Zeros(r.bufferOutSize))
  }

  predicate IoctlSafe(m: Bytes, cmd: nat, e: Entries, build: BuildFilename) {
    cmd + 0x20 <= |m| &&
    IoctlFields(m, cmd).bufferOut + IoctlFields(m, cmd).bufferOutSize <= |m| &&
    ExecuteSafe(IoctlFields(m, cmd), ZeroedOut(m, cmd), e, build)
  }

  /** IOCtl: read the record, zero-fill the output buffer, run the handler,
      store its status at +4. */
  function IoctlSpec(m: Bytes, cmd: nat, e: Entries, ro: set<Path>, build: BuildFilename): (o: Outcome)
    requires IoctlSafe(m, cmd, e, build)
    ensures |o.mem| == |m|
  {
    var x := ExecuteSpec(IoctlFields(m, cmd), ZeroedOut(m, cmd), e, ro, build);
    Outcome(Store(x.mem, cmd + 4, BE32(AsU32(x.status))), x.entries, x.status)
  }

  /* ---------------------------------------------------------------- */
  /* Vectored requests (IOCtlV)                                        */

  datatype Buffer = Buffer(address: u32, size: u32)

  /** The decoded vectored request: parameter, input and payload buffers.
      Decoding it from guest memory (SIOCtlVBuffer) is not part of this model. */
  datatype VectorRequest = VectorRequest(parameter: u32, inBuffers: seq<Buffer>, payloadBuffers: seq<Buffer>)

  predicate InRam(b: Buffer, m: Bytes) {
    b.address + b.size <= |m|
  }

  predicate AllInRam(bs: seq<Buffer>, m: Bytes) {
    forall i :: 0 <= i < |bs| ==> InRam(bs[i], m)
  }

  /** The memory after every buffer of `bs` is zero-filled, first to last. */
  function ZeroAll(m: Bytes, bs: seq<Buffer>): (r: Bytes)
    requires AllInRam(bs, m)
    ensures |r| == |m|
  {
    if bs == [] then m
    else
      var last := bs[|bs| - 1];
      var r := ZeroAll(m, bs[..|bs| - 1]);
      Store(r, last.address, Zeros(last.size))
  }

  function Min(a: nat, b: nat): nat {
    if a <= b then a else b
  }

  /** The host path READ_DIR and GETUSAGE name: the whole of input buffer 0. */
  function VectorPath(m: Bytes, req: VectorRequest, build: BuildFilename): Path
    requires |req.inBuffers| >= 1 && InRam(req.inBuffers[0], m)
  {
    var b := req.inBuffers[0];
    build(m[b.address..b.address + b.size])
  }

  /** READ_DIR's cap on the number of names: the word at input buffer 0. */
  function MaxEntries(m: Bytes, req: VectorRequest): u32
    requires |req.inBuffers| >= 1 && req.inBuffers[0].address + 4 <= |m|
  {
    Load32(m, req.inBuffers[0].address)
  }

  /** READ_DIR asks for the entry count alone. */
  predicate CountOnly(req: VectorRequest) {
    |req.inBuffers| == 1 && |req.payloadBuffers| == 1
  }

  predicate ReadDirSafe(m: Bytes, req: VectorRequest, listing: seq<Listed>, e: Entries, build: BuildFilename) {
    |req.inBuffers| >= 1 && InRam(req.inBuffers[0], m) &&
    (IsDir(e, VectorPath(m, req, build)) ==>
      if CountOnly(req) then req.payloadBuffers[0].address + 4 <= |m|
      else
        req.inBuffers[0].address + 4 <= |m| &&
        |req.payloadBuffers| >= 2 && InRam(req.payloadBuffers[0], m) &&
        req.payloadBuffers[1].address + 4 <= |m| &&
        NulFree(listing) &&
        PackedSize(listing[..Min(|listing|, MaxEntries(m, req))]) <= req.payloadBuffers[0].size)
  }

  function ReadDirSpec(m: Bytes, req: VectorRequest, listing: seq<Listed>, e: Entries,
                       build: BuildFilename): (o: Outcome)
    requires ReadDirSafe(m, req, listing, e, build)
    ensures |o.mem| == |m| && o.entries == e
  {
    var path := VectorPath(m, req, build);
    if path !in e then Outcome(m, e, DirFileNotFound)
    else if !IsDir(e, path) then Outcome(m, e, InvalidArgument)
    else if CountOnly(req) then
      Outcome(Store(m, req.payloadBuffers[0].address, BE32(|listing| % U32Modulus)), e, ResultOk)
    else
      var n := Min(|listing|, MaxEntries(m, req));
      var out := req.payloadBuffers[0];
      var z := Store(m, out.address, Zeros(out.size));
      PackedLength(listing[..n]);
      var names := Store(z, out.address, Packed(listing[..n]));
      Outcome(Store(names, req.payloadBuffers[1].address, BE32(n)), e, ResultOk)
  }

  predicate GetUsageSafe(m: Bytes, req: VectorRequest) {
    |req.inBuffers| >= 1 && InRam(req.inBuffers[0], m) &&
    |req.payloadBuffers| >= 2 &&
    req.payloadBuffers[0].address + 4 <= |m| && req.payloadBuffers[1].address + 4 <= |m|
  }

  /** GETUSAGE's two answers: blocks used and entries, or zero and zero when
      the path is not a directory. */
  function Usage(isDir: bool, listing: seq<Listed>): (u32, u32) {
    if isDir then ((SumSizes(listing) % U64Modulus / BlockSize) % U32Modulus, |listing| % U32Modulus)
    else (0, 0)
  }

  function GetUsageSpec(m: Bytes, req: VectorRequest, listing: seq<Listed>, e: Entries,
                        build: BuildFilename): (o: Outcome)
    requires GetUsageSafe(m, req)
    ensures |o.mem| == |m| && o.entries == e
  {
    var (blocks, inodes) := Usage(IsDir(e, VectorPath(m, req, build)), listing);
    var m1 := Store(m, req.payloadBuffers[0].address, BE32(blocks));
    Outcome(Store(m1, req.payloadBuffers[1].address, BE32(inodes)), e, ResultOk)
  }

  predicate IoctlVSafe(m: Bytes, cmd: nat, req: VectorRequest, listing: seq<Listed>,
                       e: Entries, build: BuildFilename) {
    cmd + 8 <= |m| && AllInRam(req.payloadBuffers, m) &&
    (req.parameter == IoctlvReadDir ==>
       ReadDirSafe(ZeroAll(m, req.payloadBuffers), req, listing, e, build)) &&
    (req.parameter == IoctlvGetUsage ==> GetUsageSafe(m, req))
  }

  /** IOCtlV: zero-fill every payload buffer, run the handler, store its
      status at +4; an unknown parameter keeps the initial status 0. */
  function IoctlVSpec(m: Bytes, cmd: nat, req: VectorRequest, listing: seq<Listed>,
                      e: Entries, build: BuildFilename): (o: Outcome)
    requires IoctlVSafe(m, cmd, req, listing, e, build)
    ensures |o.mem| == |m| && o.entries == e
  {
    var z := ZeroAll(m, req.payloadBuffers);
    var x := if req.parameter == IoctlvReadDir then ReadDirSpec(z, req, listing, e, build)
             else if req.parameter == IoctlvGetUsage then GetUsageSpec(z, req, listing, e, build)
             else Outcome(z, e, ResultOk);
    Outcome(Store(x.mem, cmd + 4, BE32(AsU32(x.status))), e, x.status)
  }
}
