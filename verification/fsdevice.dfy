/** The emulated /dev/fs device: the request handlers of
    CWII_IPC_HLE_Device_fs, step by step over guest memory and the host
    filesystem.  Each method is proved to leave the state its FsSpec function
    describes. */
module FsDevice {
  import opened GuestMemory
  import opened HostFs
  import opened DirListing
  import opened HomeDir
  import opened FsSpec

  class Device {
    /** The handle written back by Open (GetDeviceID). */
    const deviceId: u32
    /** FULL_WII_USER_DIR, the host folder that stands for the console's NAND. */
    const userDir: Path
    /** HLE_IPC_BuildFilename. */
    const build: BuildFilename
    /** Guest memory. */
    const ram: array<u8>
    /** The host filesystem. */
    const host: Host

    constructor (deviceId: u32, userDir: Path, build: BuildFilename, ram: array<u8>, host: Host)
      ensures this.deviceId == deviceId && this.userDir == userDir && this.build == build
      ensures this.ram == ram && this.host == host
    {
      this.deviceId := deviceId;
      this.userDir := userDir;
      this.build := build;
      this.ram := ram;
      this.host := host;
    }

    /** Opens the device: clears the scratch folder, creates the home
        directory of the mounted title and answers with the device handle. */
    method Open(cmd: u32, mode: u32, volume: Volume) returns (ok: bool)
      requires cmd + 8 <= ram.Length
      requires volume.Volume? ==> |userDir| + 36 < 261  // the formatted path must fit Path[260+1]
      modifies ram, host
      ensures ok
      ensures ram[..] == Store(old(ram[..]), cmd + 4, BE32(deviceId))
      ensures host.entries == OpenedEntries(old(host.entries), host.readOnly, userDir, volume)
    {
      var tmp := userDir + TmpFolder;
      var _ := host.DeleteDirRecursively(tmp);
      var _ := host.CreateDir(tmp);
      if volume.Volume? {
        var titleId, gameId := volume.titleId, volume.gameId;
        if gameId == 0 { gameId := DefaultGameId; }
        if titleId == 0 { titleId := DefaultTitleId; }
        var path := userDir + TitleFolder + Hex8(titleId) + [Sep] + Hex8(gameId) + NoCopyFolder;
        host.CreateFullPath(path);
      }
      WriteU32(ram, deviceId, cmd + 4);
      ok := true;
    }

    /** A scalar request: zero-fill the output buffer, run the handler, store
        its status at +4.  The request is always reported handled. */
    method IOCtl(cmd: u32) returns (handled: bool)
      requires IoctlSafe(ram[..], cmd, host.entries, build)
      modifies ram, host
      ensures handled
      ensures var o := IoctlSpec(old(ram[..]), cmd, old(host.entries), host.readOnly, build);
              ram[..] == o.mem && host.entries == o.entries
    {
      var parameter := Load32(ram[..], cmd + 0xC);
      var bufferIn := Load32(ram[..], cmd + 0x10);
      var bufferInSize := Load32(ram[..], cmd + 0x14);
      var bufferOut := Load32(ram[..], cmd + 0x18);
      var bufferOutSize := Load32(ram[..], cmd + 0x1C);

      Memset(ram, bufferOut, bufferOutSize);

      var status := ExecuteCommand(parameter, bufferIn, bufferInSize, bufferOut, bufferOutSize);
      WriteU32(ram, AsU32(status), cmd + 4);
      handled := true;
    }

    method ExecuteCommand(parameter: u32, bufferIn: u32, bufferInSize: u32, bufferOut: u32, bufferOutSize: u32)
      returns (status: s32)
      requires ExecuteSafe(IoctlRecord(parameter, bufferIn, bufferInSize, bufferOut, bufferOutSize),
                           ram[..], host.entries, build)
      modifies ram, host
      ensures var o := ExecuteSpec(IoctlRecord(parameter, bufferIn, bufferInSize, bufferOut, bufferOutSize),
                                   old(ram[..]), old(host.entries), host.readOnly, build);
              ram[..] == o.mem && host.entries == o.entries && status == o.status
    {
      if parameter == IoctlGetStats {
        status := GetStats(bufferOut);
      } else if parameter == IoctlCreateDir {
        status := CreateDir(bufferIn);
      } else if parameter == IoctlSetAttr {
        var request;
        status, request := SetAttr(bufferIn);
      } else if parameter == IoctlGetAttr {
        status := GetAttr(bufferIn, bufferOut, bufferOutSize);
      } else if parameter == IoctlDeleteFile {
        status := DeleteFile(bufferIn);
      } else if parameter == IoctlRenameFile {
        status := RenameFile(bufferIn);
      } else if parameter == IoctlCreateFile {
        status := CreateFile(bufferIn);
      } else {
        status := ResultFatal;
      }
    }

    /** GET_STATS: seven fixed words, stored with a running address. */
    method GetStats(bufferOut: u32) returns (status: s32)
      requires bufferOut + 28 <= ram.Length
      modifies ram
      ensures var o := GetStatsSpec(old(ram[..]), host.entries, bufferOut);
              ram[..] == o.mem && status == o.status
    {
      var addr: nat := bufferOut;
      WriteU32(ram, 0x0000_4000, addr); addr := addr + 4;
      WriteU32(ram, 0x0000_5717, addr); addr := addr + 4;
      WriteU32(ram, 0x0000_24a9, addr); addr := addr + 4;
      WriteU32(ram, 0x0000_0000, addr); addr := addr + 4;
      WriteU32(ram, 0x0000_0300, addr); addr := addr + 4;
      WriteU32(ram, 0x0000_163e, addr); addr := addr + 4;
      WriteU32(ram, 0x0000_01c1, addr);
      status := ResultOk;
    }

    /** CREATE_DIR: the directory and every directory above it. */
    method CreateDir(bufferIn: u32) returns (status: s32)
      requires bufferIn + 80 <= ram.Length
      modifies host
      ensures var o := CreateDirSpec(ram[..], old(host.entries), host.readOnly, bufferIn, build);
              host.entries == o.entries && status == o.status
    {
      var addr: nat := bufferIn;
      var ownerId := Load32(ram[..], addr); addr := addr + 4;
      var groupId := Load16(ram[..], addr); addr := addr + 2;
      var dirName := build(ram[addr..addr + PathField]); addr := addr + PathField;
      addr := addr + 9;  // owner attributes, permissions
      var attribs := ram[addr];

      host.CreateFullPath(dirName + [Sep]);
      status := ResultOk;
    }

    /** SET_ATTR: decodes the request and accepts it.  The path is read from
        the start of the input buffer, not from +6 where the request keeps it. */
    method SetAttr(bufferIn: u32) returns (status: s32, request: AttrRequest)
      requires bufferIn + 74 <= ram.Length
      ensures status == ResultOk
      ensures request == DecodeAttrRequest(ram[..], bufferIn, 0, build)
    {
      var addr: nat := bufferIn;
      var ownerId := Load32(ram[..], addr); addr := addr + 4;
      var groupId := Load16(ram[..], addr); addr := addr + 2;
      var filename := build(ram[bufferIn..bufferIn + PathField]); addr := addr + PathField;
      var ownerPerm := ram[addr]; addr := addr + 1;
      var groupPerm := ram[addr]; addr := addr + 1;
      var otherPerm := ram[addr]; addr := addr + 1;
      var attributes := ram[addr];
      request := AttrRequest(ownerId, groupId, filename, ownerPerm, groupPerm, otherPerm, attributes);
      status := ResultOk;
    }

    /** GET_ATTR: the attribute record, when the output buffer is 76 bytes. */
    method GetAttr(bufferIn: u32, bufferOut: u32, bufferOutSize: u32) returns (status: s32)
      requires bufferIn + PathField <= ram.Length
      requires bufferOutSize == AttrRecordSize && PathAt(ram[..], bufferIn, build) in host.entries ==>
                 bufferOut + 74 <= ram.Length && |PathAt(ram[..], bufferIn, build)| <= PathField
      modifies ram
      ensures var o := GetAttrSpec(old(ram[..]), host.entries, bufferIn, bufferOut, bufferOutSize, build);
              ram[..] == o.mem && status == o.status
    {
      var ownerId: u32 := 0;
      var groupId: u16 := 0;
      var filename := build(ram[bufferIn..bufferIn + PathField]);
      var ownerPerm: u8 := 3;  // read/write
      var groupPerm: u8 := 3;
      var otherPerm: u8 := 3;
      var attributes: u8 := 0;
      if !host.IsDirectory(filename) {
        if !host.Exists(filename) {
          return FileNotExist;
        }
      }

      if bufferOutSize == AttrRecordSize {
        var addr: nat := bufferOut;
        WriteU32(ram, ownerId, addr); addr := addr + 4;
        WriteU16(ram, groupId, addr); addr := addr + 2;
        WriteBytes(ram, addr, filename); addr := addr + PathField;  // memcpy
        WriteU8(ram, ownerPerm, addr); addr := addr + 1;
        WriteU8(ram, groupPerm, addr); addr := addr + 1;
        WriteU8(ram, otherPerm, addr); addr := addr + 1;
        WriteU8(ram, attributes, addr);
      }
      return ResultOk;
    }

    /** DELETE_FILE: a file delete, then a directory delete if that failed;
        success is reported either way. */
    method DeleteFile(bufferIn: u32) returns (status: s32)
      requires bufferIn + PathField <= ram.Length
      modifies host
      ensures var o := DeleteFileSpec(ram[..], old(host.entries), host.readOnly, bufferIn, build);
              host.entries == o.entries && status == o.status
    {
      var filename := build(ram[bufferIn..bufferIn + PathField]);
      var deleted := host.Delete(filename);
      if !deleted {
        var _ := host.DeleteDir(filename);
      }
      status := ResultOk;
    }

    /** RENAME_FILE: make the destination's parents, drop an existing
        destination, then rename. */
    method RenameFile(bufferIn: u32) returns (status: s32)
      requires bufferIn + 2 * PathField <= ram.Length
      modifies host
      ensures var o := RenameFileSpec(ram[..], old(host.entries), host.readOnly, bufferIn, build);
              host.entries == o.entries && status == o.status
    {
      var offset: nat := 0;
      var filename := build(ram[bufferIn + offset..bufferIn + offset + PathField]);
      offset := offset + PathField;
      var filenameRename := build(ram[bufferIn + offset..bufferIn + offset + PathField]);

      host.CreateFullPath(filenameRename);
      if host.Exists(filenameRename) {
        var _ := host.Delete(filenameRename);
      }
      var renamed := host.Rename(filename, filenameRename);
      if !renamed {
        return FileNotExist;
      }
      return ResultOk;
    }

    /** CREATE_FILE: refuse an existing path, otherwise make the parents and
        an empty file. */
    method CreateFile(bufferIn: u32) returns (status: s32)
      requires bufferIn + 74 <= ram.Length
      modifies host
      ensures var o := CreateFileSpec(ram[..], old(host.entries), host.readOnly, bufferIn, build);
              host.entries == o.entries && status == o.status
    {
      var addr: nat := bufferIn;
      var ownerId := Load32(ram[..], addr); addr := addr + 4;
      var groupId := Load16(ram[..], addr); addr := addr + 2;
      var filename := build(ram[addr..addr + PathField]); addr := addr + PathField;
      var ownerPerm := ram[addr]; addr := addr + 1;
      var groupPerm := ram[addr]; addr := addr + 1;
      var otherPerm := ram[addr]; addr := addr + 1;
      var attributes := ram[addr];

      if host.Exists(filename) {
        return FileExist;
      }
      host.CreateFullPath(filename);
      var created := host.CreateEmptyFile(filename);
      if !created {
        return ResultFatal;
      }
      return ResultOk;
    }

    /** A vectored request: zero-fill every payload buffer, run the handler,
        store its status at +4.  The request is always reported handled. */
    method IOCtlV(cmd: u32, request: VectorRequest, listing: seq<Listed>) returns (handled: bool)
      requires IoctlVSafe(ram[..], cmd, request, listing, host.entries, build)
      modifies ram
      ensures handled
      ensures ram[..] == IoctlVSpec(old(ram[..]), cmd, request, listing, host.entries, build).mem
    {
      ghost var m := ram[..];
      var returnValue: s32 := ResultOk;
      ZeroPayloads(request.payloadBuffers);
      ghost var z := ram[..];
      assert z == ZeroAll(m, request.payloadBuffers);

      if request.parameter == IoctlvReadDir {
        returnValue := ReadDir(request, listing);
        assert ram[..] == ReadDirSpec(z, request, listing, host.entries, build).mem;
      } else if request.parameter == IoctlvGetUsage {
        assert GetUsageSafe(z, request);
        returnValue := GetUsage(request, listing);
        assert ram[..] == GetUsageSpec(z, request, listing, host.entries, build).mem;
      }
      WriteU32(ram, AsU32(returnValue), cmd + 4);
      handled := true;
    }

    /** The zero-fill at the start of IOCtlV: every payload buffer, first to last. */
    method ZeroPayloads(payload: seq<Buffer>)
      requires AllInRam(payload, ram[..])
      modifies ram
      ensures ram[..] == ZeroAll(old(ram[..]), payload)
    {
      var i := 0;
      while i < |payload|
        invariant 0 <= i <= |payload|
        invariant AllInRam(payload[..i], old(ram[..]))
        invariant ram[..] == ZeroAll(old(ram[..]), payload[..i])
      {
        assert payload[..i + 1][..i] == payload[..i];
        Memset(ram, payload[i].address, payload[i].size);
        i := i + 1;
      }
      assert payload[..i] == payload;
    }

    /** READ_DIR: the entry count, or the names and their count. */
    method ReadDir(request: VectorRequest, listing: seq<Listed>) returns (status: s32)
      requires ReadDirSafe(ram[..], request, listing, host.entries, build)
      modifies ram
      ensures var o := ReadDirSpec(old(ram[..]), request, listing, host.entries, build);
              ram[..] == o.mem && status == o.status
    {
      var in0 := request.inBuffers[0];
      var filename := build(ram[in0.address..in0.address + in0.size]);
      if !host.Exists(filename) {
        return DirFileNotFound;
      } else if !host.IsDirectory(filename) {
        return InvalidArgument;
      }

      if |request.inBuffers| == 1 && |request.payloadBuffers| == 1 {
        var numFile := |listing| % U32Modulus;
        WriteU32(ram, numFile, request.payloadBuffers[0].address);
      } else {
        var maxEntries := Load32(ram[..], in0.address);
        var out := request.payloadBuffers[0];
        Memset(ram, out.address, out.size);
        PackedLength(listing[..Min(|listing|, maxEntries)]);
        var numFiles := PackNames(out.address, listing, maxEntries);
        WriteU32(ram, numFiles, request.payloadBuffers[1].address);
      }
      return ResultOk;
    }

    /** The READ_DIR loop: each name is copied with its terminator and the
        write pointer moves past it, until the listing or the cap runs out. */
    method PackNames(addr: nat, listing: seq<Listed>, maxEntries: u32) returns (numFiles: u32)
      requires addr + PackedSize(listing[..Min(|listing|, maxEntries)]) <= ram.Length
      modifies ram
      ensures numFiles == Min(|listing|, maxEntries)
      ensures addr + |Packed(listing[..numFiles])| <= ram.Length
      ensures ram[..] == Store(old(ram[..]), addr, Packed(listing[..numFiles]))
    {
      ghost var n := Min(|listing|, maxEntries);
      ghost var m0 := ram[..];
      numFiles := 0;
      var pFilename := addr;
      var i := 0;
      assert listing[..0] == [];
      while i < |listing|
        invariant 0 <= i <= n && numFiles == i
        invariant |Packed(listing[..i])| == PackedSize(listing[..i])
        invariant addr + PackedSize(listing[..i]) <= ram.Length
        invariant pFilename == addr + PackedSize(listing[..i])
        invariant ram[..] == Store(m0, addr, Packed(listing[..i]))
      {
        if i >= maxEntries {
          break;
        }
        var completeFilename := listing[i].name;
        assert listing[..n][..i + 1] == listing[..i + 1];
        PackedPrefix(listing[..n], i + 1);
        PackedSizeNext(listing, i);

        ghost var before := ram[..];
        ghost var p := pFilename;
        WriteBytes(ram, pFilename, completeFilename + [0]);  // strcpy
        ghost var mid := ram[..];
        pFilename := pFilename + |completeFilename|;
        WriteU8(ram, 0, pFilename);  // termination
        StorePackedNext(m0, addr, listing, i, before, p);
        assert ram[..] == Store(Store(before, p, completeFilename + [0]), p + |completeFilename|, [0]);
        pFilename := pFilename + 1;
        numFiles := numFiles + 1;
        i := i + 1;
      }
      assert i == n;
    }

    /** GETUSAGE: blocks used and entry count of a directory, zero and zero
        for anything else; always success. */
    method GetUsage(request: VectorRequest, listing: seq<Listed>) returns (status: s32)
      requires GetUsageSafe(ram[..], request)
      modifies ram
      ensures var o := GetUsageSpec(old(ram[..]), request, listing, host.entries, build);
              ram[..] == o.mem && status == o.status
    {
      ghost var m := ram[..];
      var in0 := request.inBuffers[0];
      var filename := build(ram[in0.address..in0.address + in0.size]);
      assert filename == VectorPath(m, request, build);
      var fsBlock: u32 := 0;
      var iNodes: u32 := 0;
      if host.IsDirectory(filename) {
        var overAllSize := TotalSize(listing);
        fsBlock := (overAllSize / (16 * 1024)) % U32Modulus;  // one block is 16 KiB
        iNodes := |listing| % U32Modulus;
        status := ResultOk;
      } else {
        fsBlock := 0;
        iNodes := 0;
        status := ResultOk;
      }
      assert (fsBlock, iNodes) == Usage(host.IsDirectory(filename), listing);
      WriteU32(ram, fsBlock, request.payloadBuffers[0].address);
      WriteU32(ram, iNodes, request.payloadBuffers[1].address);
      assert ram[..] == Store(Store(m, request.payloadBuffers[0].address, BE32(fsBlock)),
                              request.payloadBuffers[1].address, BE32(iNodes));
    }
  }
}
