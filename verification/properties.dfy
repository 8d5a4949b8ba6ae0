/** What the filesystem device promises its callers, stated over the request
    functions of FsSpec (which the device's methods are proved to follow). */
module FsProperties {
  import opened GuestMemory
  import opened HostFs
  import opened DirListing
  import opened HomeDir
  import opened FsSpec

  /* ---------------------------------------------------------------- */
  /* The scalar envelope                                               */

  /** IOCtl always answers with one of the handlers' status codes, stored as
      a two's-complement word at +4; an unknown parameter is answered with
      -128 and leaves only the zero-filled output buffer and that word. */
  lemma IoctlEnvelope(m: Bytes, cmd: nat, e: Entries, ro: set<Path>, build: BuildFilename)
    requires IoctlSafe(m, cmd, e, build)
    ensures var o := IoctlSpec(m, cmd, e, ro, build);
            o.status in {ResultOk, FileExist, FileNotExist, ResultFatal} &&
            AsS32(Decode32(o.mem[cmd + 4..cmd + 8])) == o.status
    ensures var o := IoctlSpec(m, cmd, e, ro, build);
            !KnownIoctl(IoctlFields(m, cmd).parameter) ==>
              o.status == ResultFatal && o.entries == e &&
              o.mem == Store(ZeroedOut(m, cmd), cmd + 4, BE32(AsU32(ResultFatal)))
  {
    var x := ExecuteSpec(IoctlFields(m, cmd), ZeroedOut(m, cmd), e, ro, build);
    ExecuteStatus(IoctlFields(m, cmd), ZeroedOut(m, cmd), e, ro, build);
    var o := IoctlSpec(m, cmd, e, ro, build);
    assert o.mem[cmd + 4..cmd + 8] == BE32(AsU32(x.status));
  }

  /** The status codes a scalar handler can give. */
  lemma ExecuteStatus(r: IoctlRecord, m: Bytes, e: Entries, ro: set<Path>, build: BuildFilename)
    requires ExecuteSafe(r, m, e, build)
    ensures ExecuteSpec(r, m, e, ro, build).status in {ResultOk, FileExist, FileNotExist, ResultFatal}
    ensures !KnownIoctl(r.parameter) ==> ExecuteSpec(r, m, e, ro, build) == Outcome(m, e, ResultFatal)
  {
    var p := r.parameter;
    if p == IoctlCreateFile {
      var q := DecodeAttrRequest(m, r.bufferIn, 6, build).path;
      assert CreateFileSpec(m, e, ro, r.bufferIn, build).status in {ResultOk, FileExist, ResultFatal};
    }
  }

  /** The zero-fill covers exactly the output buffer: every byte in it is
      zero, every byte outside it is as before. */
  lemma ZeroedOutExact(m: Bytes, cmd: nat, i: nat)
    requires cmd + 0x20 <= |m|
    requires IoctlFields(m, cmd).bufferOut + IoctlFields(m, cmd).bufferOutSize <= |m|
    requires i < |m|
    ensures var r := IoctlFields(m, cmd);
            ZeroedOut(m, cmd)[i] == if r.bufferOut <= i < r.bufferOut + r.bufferOutSize then 0 else m[i]
  {
    var r := IoctlFields(m, cmd);
    var z := ZeroedOut(m, cmd);
    if r.bufferOut <= i < r.bufferOut + r.bufferOutSize {
      assert z[i] == z[r.bufferOut..r.bufferOut + r.bufferOutSize][i - r.bufferOut];
    }
  }

  /** Away from the status word, IOCtl leaves in memory exactly what the
      handler left in the zero-filled memory. */
  lemma IoctlWindow(m: Bytes, cmd: nat, e: Entries, ro: set<Path>, build: BuildFilename, lo: nat, hi: nat)
    requires IoctlSafe(m, cmd, e, build)
    requires lo <= hi <= |m| && Disjoint(cmd + 4, 4, lo, hi - lo)
    ensures IoctlSpec(m, cmd, e, ro, build).mem[lo..hi]
         == ExecuteSpec(IoctlFields(m, cmd), ZeroedOut(m, cmd), e, ro, build).mem[lo..hi]
  {
    var x := ExecuteSpec(IoctlFields(m, cmd), ZeroedOut(m, cmd), e, ro, build);
    StoreElsewhere(x.mem, cmd + 4, BE32(AsU32(x.status)), lo, hi);
  }

  /** The handlers that write nothing to guest memory (every one but GET_STATS
      and GET_ATTR) leave only the zero-filled output buffer and the status. */
  lemma IoctlSilentHandlers(m: Bytes, cmd: nat, e: Entries, ro: set<Path>, build: BuildFilename)
    requires IoctlSafe(m, cmd, e, build)
    requires IoctlFields(m, cmd).parameter !in {IoctlGetStats, IoctlGetAttr}
    ensures var o := IoctlSpec(m, cmd, e, ro, build);
            o.mem == Store(ZeroedOut(m, cmd), cmd + 4, BE32(AsU32(o.status)))
  {
  }

  /* ---------------------------------------------------------------- */
  /* GET_STATS                                                         */

  /** Word `k` of a big-endian word list sits at byte 4k. */
  lemma {:induction false} WordsAt(ws: seq<u32>, k: nat)
    requires k < |ws|
    ensures Words(ws)[4 * k..4 * k + 4] == BE32(ws[k])
  {
    if k > 0 {
      assert Words(ws) == BE32(ws[0]) + Words(ws[1..]);
      assert Words(ws)[4 * k..4 * k + 4] == Words(ws[1..])[4 * (k - 1)..4 * (k - 1) + 4];
      WordsAt(ws[1..], k - 1);
    }
  }

  /** The seven recorded words, byte by byte. */
  lemma StatsWordsBytes()
    ensures Words(StatsWords)
         == BE32(0x0000_4000) + BE32(0x0000_5717) + BE32(0x0000_24a9) + BE32(0x0000_0000)
          + BE32(0x0000_0300) + BE32(0x0000_163e) + BE32(0x0000_01c1)
  {
    var w := StatsWords;
    assert Words(w[6..]) == BE32(w[6]) by { assert w[6..][1..] == []; }
    assert Words(w[5..]) == BE32(w[5]) + Words(w[6..]) by { assert w[5..][1..] == w[6..]; }
    assert Words(w[4..]) == BE32(w[4]) + Words(w[5..]) by { assert w[4..][1..] == w[5..]; }
    assert Words(w[3..]) == BE32(w[3]) + Words(w[4..]) by { assert w[3..][1..] == w[4..]; }
    assert Words(w[2..]) == BE32(w[2]) + Words(w[3..]) by { assert w[2..][1..] == w[3..]; }
    assert Words(w[1..]) == BE32(w[1]) + Words(w[2..]) by { assert w[1..][1..] == w[2..]; }
  }

  /** The seven stores with a running address lay the seven words out back
      to back: GET_STATS writes exactly the 28-byte record. */
  lemma GetStatsRecord(m: Bytes, e: Entries, out: nat)
    requires out + 28 <= |m|
    ensures GetStatsSpec(m, e, out) == Outcome(Store(m, out, Words(StatsWords)), e, ResultOk)
  {
    var a := BE32(0x0000_4000);
    var b := a + BE32(0x0000_5717);
    var c := b + BE32(0x0000_24a9);
    var d := c + BE32(0x0000_0000);
    var f := d + BE32(0x0000_0300);
    var g := f + BE32(0x0000_163e);
    var h := g + BE32(0x0000_01c1);
    var m1 := Store(m, out, a);
    var m2 := Store(m1, out + 4, BE32(0x0000_5717));
    assert m2 == Store(m, out, b) by { StoreAdjacent(m, out, a, BE32(0x0000_5717)); }
    var m3 := Store(m2, out + 8, BE32(0x0000_24a9));
    assert m3 == Store(m, out, c) by { StoreAdjacent(m, out, b, BE32(0x0000_24a9)); }
    var m4 := Store(m3, out + 12, BE32(0x0000_0000));
    assert m4 == Store(m, out, d) by { StoreAdjacent(m, out, c, BE32(0x0000_0000)); }
    var m5 := Store(m4, out + 16, BE32(0x0000_0300));
    assert m5 == Store(m, out, f) by { StoreAdjacent(m, out, d, BE32(0x0000_0300)); }
    var m6 := Store(m5, out + 20, BE32(0x0000_163e));
    assert m6 == Store(m, out, g) by { StoreAdjacent(m, out, f, BE32(0x0000_163e)); }
    var m7 := Store(m6, out + 24, BE32(0x0000_01c1));
    assert m7 == Store(m, out, h) by { StoreAdjacent(m, out, g, BE32(0x0000_01c1)); }
    assert GetStatsSpec(m, e, out).mem == m7;
    StatsWordsBytes();
  }

  /** Word `k` of a stored word list reads back as that word. */
  lemma StoredWordAt(m: Bytes, out: nat, ws: seq<u32>, k: nat)
    requires out + 4 * |ws| <= |m| && k < |ws|
    ensures Decode32(Store(m, out, Words(ws))[out + 4 * k..out + 4 * k + 4]) == ws[k]
  {
    var w := Words(ws);
    assert Store(m, out, w)[out + 4 * k..out + 4 * k + 4] == w[4 * k..4 * k + 4] by {
      StoreWindow(m, out, w, 4 * k, 4 * k + 4);
    }
    assert w[4 * k..4 * k + 4] == BE32(ws[k]) by {
      WordsAt(ws, k);
    }
  }

  /** Reading word `k` of the GET_STATS answer gives the k-th recorded value;
      the request succeeds and leaves the host alone. */
  lemma GetStatsWords(m: Bytes, e: Entries, out: nat, k: nat)
    requires out + 28 <= |m| && k < 7
    ensures var o := GetStatsSpec(m, e, out);
            Decode32(o.mem[out + 4 * k..out + 4 * k + 4]) == StatsWords[k] &&
            o.status == ResultOk && o.entries == e
  {
    GetStatsRecord(m, e, out);
    StoredWordAt(m, out, StatsWords, k);
  }

  /* ---------------------------------------------------------------- */
  /* GET_ATTR                                                          */

  /** GET_ATTR answers -106 exactly when the path names nothing on the host,
      and 0 otherwise; the record is written only for a 76-byte output buffer,
      and the host is never changed. */
  lemma GetAttrOutcome(m: Bytes, e: Entries, bufIn: nat, out: nat, outSize: nat, build: BuildFilename)
    requires bufIn + PathField <= |m|
    requires outSize == AttrRecordSize && PathAt(m, bufIn, build) in e ==>
               out + 74 <= |m| && |PathAt(m, bufIn, build)| <= PathField
    ensures var o := GetAttrSpec(m, e, bufIn, out, outSize, build);
            (o.status == FileNotExist <==> PathAt(m, bufIn, build) !in e) &&
            o.status in {ResultOk, FileNotExist} && o.entries == e &&
            (o.status == FileNotExist || outSize != AttrRecordSize ==> o.mem == m)
  {
  }

  /** The owner, group and name stores of GET_ATTR, over a zeroed buffer,
      leave the first 70 bytes of the record. */
  lemma AttrHead(m: Bytes, out: nat, name: Path)
    requires |name| <= PathField && out + AttrRecordSize <= |m|
    requires m[out..out + AttrRecordSize] == Zeros(AttrRecordSize)
    ensures Store(Store(Store(m, out, BE32(0)), out + 4, BE16(0)), out + 6, name)
         == Store(m, out, BE32(0) + BE16(0) + name + Zeros(PathField - |name|))
  {
    var head := BE32(0) + BE16(0);
    var m2 := Store(Store(m, out, BE32(0)), out + 4, BE16(0));
    assert m2 == Store(m, out, head) by { StoreAdjacent(m, out, BE32(0), BE16(0)); }
    var m3 := Store(m2, out + 6, name);
    assert m3 == Store(m, out, head + name) by { StoreAdjacent(m, out, head, name); }
    var lo, hi := out + 6 + |name|, out + 70;
    var pad := Zeros(PathField - |name|);
    assert m3[lo..hi] == pad by {
      forall i | lo <= i < hi
        ensures m3[i] == 0
      {
        assert m[i] == m[out..out + AttrRecordSize][i - out];
      }
    }
    assert Store(m3, lo, pad) == m3 by { StoreUnchanged(m3, lo, pad); }
    StoreAdjacent(m, out, head + name, pad);
  }

  /** The four permission and attribute stores complete the record. */
  lemma AttrTail(m: Bytes, out: nat, front: Bytes)
    requires |front| == 70 && out + AttrRecordSize <= |m|
    requires m[out + 74..out + AttrRecordSize] == Zeros(2)
    ensures Store(Store(Store(Store(Store(m, out, front), out + 70, [3]), out + 71, [3]), out + 72, [3]), out + 73, [0])
         == Store(m, out, front + [3, 3, 3, 0] + Zeros(2))
  {
    StoreAdjacent(m, out, front, [3]);
    StoreAdjacent(m, out, front + [3], [3]);
    assert front + [3] + [3] == front + [3, 3];
    StoreAdjacent(m, out, front + [3, 3], [3]);
    assert front + [3, 3] + [3] == front + [3, 3, 3];
    StoreAdjacent(m, out, front + [3, 3, 3], [0]);
    assert front + [3, 3, 3] + [0] == front + [3, 3, 3, 0];
    var m7 := Store(m, out, front + [3, 3, 3, 0]);
    StoreUnchanged(m7, out + 74, Zeros(2));
    StoreAdjacent(m, out, front + [3, 3, 3, 0], Zeros(2));
  }

  /** On a zero-filled 76-byte buffer, GET_ATTR's seven stores leave exactly
      the attribute record: owner 0 at +0, group 0 at +4, the host path at
      +6 padded with zeros to +70, permissions 3, 3, 3 at +70..+72 and
      attributes 0 at +73. */
  lemma GetAttrRecordLayout(m: Bytes, out: nat, name: Path)
    requires |name| <= PathField && out + AttrRecordSize <= |m|
    requires m[out..out + AttrRecordSize] == Zeros(AttrRecordSize)
    ensures AttrWrites(m, out, name) == Store(m, out, AttrRecord(name))
  {
    var front := BE32(0) + BE16(0) + name + Zeros(PathField - |name|);
    AttrHead(m, out, name);
    assert m[out + 74..out + AttrRecordSize] == m[out..out + AttrRecordSize][74..76];
    AttrTail(m, out, front);
  }

  /** GET_ATTR on a zero-filled 76-byte output buffer: the attribute record
      of an existing path, or an untouched (all-zero) buffer and -106. */
  lemma GetAttrOnZeroedBuffer(z: Bytes, e: Entries, bufIn: nat, out: nat, build: BuildFilename)
    requires bufIn + PathField <= |z| && out + AttrRecordSize <= |z|
    requires PathAt(z, bufIn, build) in e ==> |PathAt(z, bufIn, build)| <= PathField
    requires z[out..out + AttrRecordSize] == Zeros(AttrRecordSize)
    ensures var name := PathAt(z, bufIn, build);
            var x := GetAttrSpec(z, e, bufIn, out, AttrRecordSize, build);
            (name in e ==> x.status == ResultOk && x.mem[out..out + AttrRecordSize] == AttrRecord(name)) &&
            (name !in e ==> x.status == FileNotExist && x.mem[out..out + AttrRecordSize] == Zeros(AttrRecordSize))
  {
    var name := PathAt(z, bufIn, build);
    if name in e {
      GetAttrRecordLayout(z, out, name);
      StoreWindow(z, out, AttrRecord(name), 0, AttrRecordSize);
    }
  }


  /* ---------------------------------------------------------------- */
  /* CREATE_DIR, SET_ATTR, DELETE_FILE                                 */

  /** The directories above `p` are directories above `p` + "/" too. */
  lemma PrefixesOfDirPath(p: Path)
    ensures |p| > 0 ==> p in DirPrefixes(p + [Sep])
    ensures forall q :: q in DirPrefixes(p) ==> q in DirPrefixes(p + [Sep])
  {
    var d := p + [Sep];
    if |p| > 0 {
      assert d[..|p|] == p;
    }
    forall q | q in DirPrefixes(p)
      ensures q in DirPrefixes(d)
    {
      assert d[..|q|] == q && d[|q|] == Sep;
    }
  }

  /** CREATE_DIR always succeeds from the guest's point of view and never
      removes or changes an entry; when nothing on the way is read-only or a
      file, the directory and every directory above it exist afterwards. */
  lemma CreateDirOutcome(m: Bytes, e: Entries, ro: set<Path>, bufIn: nat, build: BuildFilename)
    requires bufIn + 80 <= |m|
    ensures var o := CreateDirSpec(m, e, ro, bufIn, build);
            o.status == ResultOk && o.mem == m &&
            (forall k :: k in e ==> k in o.entries && o.entries[k] == e[k]) &&
            (forall k :: k in o.entries && k !in e ==> o.entries[k] == Dir)
    ensures var p := PathAt(m, bufIn + 6, build);
            var o := CreateDirSpec(m, e, ro, bufIn, build);
            |p| > 0 && PrefixesFree(e, ro, p + [Sep]) ==> IsDir(o.entries, p) && ParentsPresent(o.entries, p)
    ensures var p := PathAt(m, bufIn + 6, build);
            var o := CreateDirSpec(m, e, ro, bufIn, build);
            forall k :: k in o.entries && k !in e ==> k in DirPrefixes(p + [Sep])
  {
    var p := PathAt(m, bufIn + 6, build);
    PrefixesOfDirPath(p);
  }

  /** SET_ATTR changes nothing and always answers 0. */
  lemma SetAttrOutcome(r: IoctlRecord, m: Bytes, e: Entries, ro: set<Path>, build: BuildFilename)
    requires ExecuteSafe(r, m, e, build) && r.parameter == IoctlSetAttr
    ensures ExecuteSpec(r, m, e, ro, build) == Outcome(m, e, ResultOk)
  {
  }

  /** SET_ATTR hands the host-path translation the 64 bytes from the start
      of the request, so the owner and group fields are the first six bytes
      of the path it decodes. */
  lemma SetAttrPathWindow(m: Bytes, bufIn: nat, build: BuildFilename)
    requires bufIn + 74 <= |m|
    ensures var r := DecodeAttrRequest(m, bufIn, 0, build);
            r.path == build(BE32(r.ownerId) + BE16(r.groupId) + m[bufIn + 6..bufIn + PathField])
  {
    var r := DecodeAttrRequest(m, bufIn, 0, build);
    var g := r.groupId;
    assert BE16(g) == m[bufIn + 4..bufIn + 6] by {
      assert g == m[bufIn + 4] as int * 0x100 + m[bufIn + 5];
      assert g / 0x100 == m[bufIn + 4] && g % 0x100 == m[bufIn + 5];
    }
    assert m[bufIn..bufIn + PathField]
        == m[bufIn..bufIn + 4] + m[bufIn + 4..bufIn + 6] + m[bufIn + 6..bufIn + PathField];
  }

  /** DELETE_FILE always answers 0 and touches at most its own path: the path
      is gone afterwards exactly when it named nothing, or was not read-only
      and was a file or a directory with nothing in it; otherwise the host is
      as before. */
  lemma DeleteFileOutcome(m: Bytes, e: Entries, ro: set<Path>, bufIn: nat, build: BuildFilename)
    requires bufIn + PathField <= |m|
    ensures var p := PathAt(m, bufIn, build);
            var o := DeleteFileSpec(m, e, ro, bufIn, build);
            o.status == ResultOk && o.mem == m &&
            (o.entries == e || o.entries == e - {p}) &&
            (p !in o.entries <==>
               p !in e || (p !in ro && (e[p].File? || forall k :: k in e ==> !Beneath(k, p))))
  {
  }

  /* ---------------------------------------------------------------- */
  /* RENAME_FILE                                                       */

  /** RENAME_FILE answers 0 or -106, and 0 exactly when the source and the
      destination differ, neither is read-only, the source exists (or is one
      of the directories made on the way to the destination) and the
      destination is free or a file, which is then replaced.  On success the
      source is gone and the destination holds what the source held.  No
      other entry is changed, and the only entries added besides the
      destination are the directories made on the way to it; when nothing
      blocks them, those directories (but for a renamed source) all exist.
      A failed rename has still deleted a writable destination file. */
  lemma RenameOutcome(m: Bytes, e: Entries, ro: set<Path>, bufIn: nat, build: BuildFilename)
    requires bufIn + 2 * PathField <= |m|
    ensures var src, dst := PathAt(m, bufIn, build), PathAt(m, bufIn + PathField, build);
            var o := RenameFileSpec(m, e, ro, bufIn, build);
            o.mem == m && o.status in {ResultOk, FileNotExist} &&
            (o.status == ResultOk <==>
               src != dst && src !in ro && dst !in ro && (src in e || src in DirPrefixes(dst)) &&
               (dst in e ==> e[dst].File?))
    ensures var src, dst := PathAt(m, bufIn, build), PathAt(m, bufIn + PathField, build);
            var o := RenameFileSpec(m, e, ro, bufIn, build);
            o.status == ResultOk ==>
              src !in o.entries && dst in o.entries && (src in e ==> o.entries[dst] == e[src])
    ensures var src, dst := PathAt(m, bufIn, build), PathAt(m, bufIn + PathField, build);
            var o := RenameFileSpec(m, e, ro, bufIn, build);
            (forall k :: k in e && k != src && k != dst ==> k in o.entries && o.entries[k] == e[k]) &&
            (forall k :: k in o.entries && k !in e && k != dst ==> k in DirPrefixes(dst) && o.entries[k] == Dir)
    ensures var src, dst := PathAt(m, bufIn, build), PathAt(m, bufIn + PathField, build);
            var o := RenameFileSpec(m, e, ro, bufIn, build);
            o.status == FileNotExist ==>
              (dst in o.entries <==> dst in e && (e[dst].Dir? || dst in ro)) &&
              (dst in o.entries ==> o.entries[dst] == e[dst])
    ensures var src, dst := PathAt(m, bufIn, build), PathAt(m, bufIn + PathField, build);
            var o := RenameFileSpec(m, e, ro, bufIn, build);
            PrefixesFree(e, ro, dst) ==> forall q :: q in DirPrefixes(dst) && q != src ==> IsDir(o.entries, q)
  {
    var src, dst := PathAt(m, bufIn, build), PathAt(m, bufIn + PathField, build);
    var e1 := WithParents(e, ro, dst);
    assert dst !in DirPrefixes(dst);
    assert dst in e1 <==> dst in e;
    assert src != dst ==> (src in e1 <==> src in e || (src in DirPrefixes(dst) && src !in ro));
  }

  /** Renaming a file onto itself destroys it: the existing destination is
      deleted first, and the rename then finds no source and answers -106. */
  lemma RenameOntoItself(m: Bytes, e: Entries, ro: set<Path>, bufIn: nat, build: BuildFilename)
    requires bufIn + 2 * PathField <= |m|
    requires PathAt(m, bufIn, build) == PathAt(m, bufIn + PathField, build)
    requires PathAt(m, bufIn, build) in e && e[PathAt(m, bufIn, build)].File?
    requires PathAt(m, bufIn, build) !in ro
    ensures var o := RenameFileSpec(m, e, ro, bufIn, build);
            o.status == FileNotExist && PathAt(m, bufIn, build) !in o.entries
  {
    var p := PathAt(m, bufIn, build);
    assert p !in DirPrefixes(p);
  }

  /* ---------------------------------------------------------------- */
  /* CREATE_FILE                                                       */

  /** CREATE_FILE on an existing path answers -105 and changes nothing.
      Otherwise it makes the missing directories above the path and answers
      0 with a new empty file exactly when the path is not read-only and
      every directory above it now exists, and -128 when it is not; no
      existing entry is changed. */
  lemma CreateFileOutcome(m: Bytes, e: Entries, ro: set<Path>, bufIn: nat, build: BuildFilename)
    requires bufIn + 74 <= |m|
    ensures var p := PathAt(m, bufIn + 6, build);
            var o := CreateFileSpec(m, e, ro, bufIn, build);
            o.mem == m && o.status in {ResultOk, FileExist, ResultFatal} &&
            (p in e ==> o == Outcome(m, e, FileExist)) &&
            (p !in e ==> (o.status == ResultOk <==> p !in ro && ParentsPresent(WithParents(e, ro, p), p))) &&
            (o.status == ResultOk ==> p in o.entries && o.entries[p] == File(0)) &&
            (forall k :: k in e ==> k in o.entries && o.entries[k] == e[k])
    ensures var p := PathAt(m, bufIn + 6, build);
            var o := CreateFileSpec(m, e, ro, bufIn, build);
            forall k :: k in o.entries && k !in e ==>
              (k == p && o.status == ResultOk) || (k in DirPrefixes(p) && o.entries[k] == Dir)
    ensures var p := PathAt(m, bufIn + 6, build);
            p !in e && p !in ro && PrefixesFree(e, ro, p) ==>
              CreateFileSpec(m, e, ro, bufIn, build).status == ResultOk
  {
    var p := PathAt(m, bufIn + 6, build);
    assert p !in DirPrefixes(p);
  }

  /* ---------------------------------------------------------------- */
  /* The vectored envelope                                             */

  /** Byte `i` lies in one of the buffers. */
  predicate InSomeBuffer(bs: seq<Buffer>, i: int) {
    exists k :: 0 <= k < |bs| && bs[k].address <= i < bs[k].address + bs[k].size
  }

  /** The zero-fill of IOCtlV clears exactly the payload buffers: a byte in
      any of them is zero afterwards, every other byte is as before. */
  lemma {:induction false} ZeroAllExact(m: Bytes, bs: seq<Buffer>, i: nat)
    requires AllInRam(bs, m) && i < |m|
    ensures ZeroAll(m, bs)[i] == if InSomeBuffer(bs, i) then 0 else m[i]
  {
    if bs != [] {
      var init, last := bs[..|bs| - 1], bs[|bs| - 1];
      assert AllInRam(init, m) by {
        forall k | 0 <= k < |init| ensures InRam(init[k], m) {
          assert init[k] == bs[k];
        }
      }
      var r := ZeroAll(m, init);
      ZeroAllExact(m, init, i);
      var z := Store(r, last.address, Zeros(last.size));
      assert ZeroAll(m, bs) == z;
      if last.address <= i < last.address + last.size {
        assert z[i] == z[last.address..last.address + last.size][i - last.address];
        assert InSomeBuffer(bs, i);
      } else {
        assert z[i] == r[i];
        if InSomeBuffer(bs, i) {
          var k :| 0 <= k < |bs| && bs[k].address <= i < bs[k].address + bs[k].size;
          assert k < |init| && init[k] == bs[k];
        }
        if InSomeBuffer(init, i) {
          var k :| 0 <= k < |init| && init[k].address <= i < init[k].address + init[k].size;
          assert bs[k] == init[k];
        }
      }
    }
  }

  /** IOCtlV answers 0, -6 or -101, stored as a two's-complement word at +4,
      and never changes the host; an unknown parameter is answered with 0 and
      leaves only the zero-filled payload buffers and that word. */
  lemma IoctlVEnvelope(m: Bytes, cmd: nat, req: VectorRequest, listing: seq<Listed>,
                       e: Entries, build: BuildFilename)
    requires IoctlVSafe(m, cmd, req, listing, e, build)
    ensures var o := IoctlVSpec(m, cmd, req, listing, e, build);
            o.status in {ResultOk, DirFileNotFound, InvalidArgument} && o.entries == e &&
            AsS32(Decode32(o.mem[cmd + 4..cmd + 8])) == o.status
    ensures var o := IoctlVSpec(m, cmd, req, listing, e, build);
            req.parameter !in {IoctlvReadDir, IoctlvGetUsage} ==>
              o.status == ResultOk && o.mem == Store(ZeroAll(m, req.payloadBuffers), cmd + 4, BE32(0))
  {
    var z := ZeroAll(m, req.payloadBuffers);
    var x := if req.parameter == IoctlvReadDir then ReadDirSpec(z, req, listing, e, build)
             else if req.parameter == IoctlvGetUsage then GetUsageSpec(z, req, listing, e, build)
             else Outcome(z, e, ResultOk);
    var o := IoctlVSpec(m, cmd, req, listing, e, build);
    assert o.mem[cmd + 4..cmd + 8] == BE32(AsU32(x.status));
  }

  /* ---------------------------------------------------------------- */
  /* READ_DIR                                                          */

  /** READ_DIR answers -6 for a missing path and -101 for a path that is not
      a directory, writing nothing; for a directory it answers 0. */
  lemma ReadDirStatus(m: Bytes, req: VectorRequest, listing: seq<Listed>, e: Entries, build: BuildFilename)
    requires ReadDirSafe(m, req, listing, e, build)
    ensures var p := VectorPath(m, req, build);
            var o := ReadDirSpec(m, req, listing, e, build);
            (p !in e ==> o == Outcome(m, e, DirFileNotFound)) &&
            (p in e && !IsDir(e, p) ==> o == Outcome(m, e, InvalidArgument)) &&
            (IsDir(e, p) ==> o.status == ResultOk)
  {
  }

  /** With one input and one payload buffer, READ_DIR on a directory stores
      the number of entries (as a 32-bit word) in the payload. */
  lemma ReadDirCount(m: Bytes, req: VectorRequest, listing: seq<Listed>, e: Entries, build: BuildFilename)
    requires ReadDirSafe(m, req, listing, e, build)
    requires IsDir(e, VectorPath(m, req, build)) && CountOnly(req)
    ensures var a := req.payloadBuffers[0].address;
            Decode32(ReadDirSpec(m, req, listing, e, build).mem[a..a + 4]) == |listing| % U32Modulus
    ensures var a := req.payloadBuffers[0].address;
            var o := ReadDirSpec(m, req, listing, e, build);
            forall i :: 0 <= i < |m| && !(a <= i < a + 4) ==> o.mem[i] == m[i]
  {
    var a := req.payloadBuffers[0].address;
    StoreWindow(m, a, BE32(|listing| % U32Modulus), 0, 4);
  }

  lemma NulFreePrefix(ls: seq<Listed>, n: nat)
    requires NulFree(ls) && n <= |ls|
    ensures NulFree(ls[..n])
  {
    forall i, j | 0 <= i < n && 0 <= j < |ls[..n][i].name|
      ensures ls[..n][i].name[j] != 0
    {
      assert ls[..n][i] == ls[i];
    }
  }

  /** Otherwise READ_DIR on a directory packs the first min(entries, cap)
      names into payload 0, each followed by one zero byte, so that splitting
      the buffer at its zero bytes gives those names back in order; the rest
      of payload 0 stays zero, and payload 1 receives the number of names. */
  lemma ReadDirNames(m: Bytes, req: VectorRequest, listing: seq<Listed>, e: Entries, build: BuildFilename)
    requires ReadDirSafe(m, req, listing, e, build)
    requires IsDir(e, VectorPath(m, req, build)) && !CountOnly(req)
    requires Disjoint(req.payloadBuffers[0].address, req.payloadBuffers[0].size,
                      req.payloadBuffers[1].address, 4)
    ensures var n := Min(|listing|, MaxEntries(m, req));
            var a, size := req.payloadBuffers[0].address, req.payloadBuffers[0].size;
            var k := PackedSize(listing[..n]);
            var o := ReadDirSpec(m, req, listing, e, build);
            a + k <= |o.mem| &&
            o.mem[a..a + k] == Packed(listing[..n]) &&
            Unpack(o.mem[a..a + k]) == Names(listing[..n]) &&
            (forall i :: a + k <= i < a + size ==> o.mem[i] == 0) &&
            Decode32(o.mem[req.payloadBuffers[1].address..req.payloadBuffers[1].address + 4]) == n
    ensures var a, size := req.payloadBuffers[0].address, req.payloadBuffers[0].size;
            var b := req.payloadBuffers[1].address;
            var o := ReadDirSpec(m, req, listing, e, build);
            forall i :: 0 <= i < |m| && !(a <= i < a + size) && !(b <= i < b + 4) ==> o.mem[i] == m[i]
  {
    var n := Min(|listing|, MaxEntries(m, req));
    var a, size := req.payloadBuffers[0].address, req.payloadBuffers[0].size;
    var b := req.payloadBuffers[1].address;
    var packed := Packed(listing[..n]);
    PackedLength(listing[..n]);
    var o := ReadDirSpec(m, req, listing, e, build);
    assert o.mem == Store(Store(Store(m, a, Zeros(size)), a, packed), b, BE32(n));
    PackedAndCounted(m, a, size, b, packed, BE32(n));
    NulFreePrefix(listing, n);
    UnpackPacked(listing[..n]);
  }

  /** Zero-filling a buffer, storing bytes at its start and then a word
      outside it leaves the bytes, zeros after them, and the word. */
  lemma PackedAndCounted(m: Bytes, a: nat, size: nat, b: nat, packed: Bytes, w: Bytes)
    requires a + size <= |m| && |packed| <= size && b + |w| <= |m| && Disjoint(a, size, b, |w|)
    ensures var r := Store(Store(Store(m, a, Zeros(size)), a, packed), b, w);
            r[a..a + |packed|] == packed && r[b..b + |w|] == w &&
            forall i :: a + |packed| <= i < a + size ==> r[i] == 0
  {
    var z := Store(m, a, Zeros(size));
    var names := Store(z, a, packed);
    StoreElsewhere(names, b, w, a, a + |packed|);
    StoreWindow(z, a, packed, 0, |packed|);
    forall i | a + |packed| <= i < a + size
      ensures z[i] == 0
    {
      assert z[i] == z[a..a + size][i - a];
    }
  }

  /** READ_DIR takes its cap on the number of names from the first four bytes
      of input buffer 0, the same bytes that begin the directory path. */
  lemma MaxEntriesFromPath(m: Bytes, req: VectorRequest)
    requires |req.inBuffers| >= 1 && InRam(req.inBuffers[0], m) && req.inBuffers[0].size >= 4
    ensures var b := req.inBuffers[0];
            BE32(MaxEntries(m, req)) == m[b.address..b.address + b.size][..4]
  {
    var b := req.inBuffers[0];
    assert m[b.address..b.address + b.size][..4] == m[b.address..b.address + 4];
  }

  /* ---------------------------------------------------------------- */
  /* GETUSAGE                                                          */

  /** GETUSAGE always answers 0 and stores the block count in payload 0 and
      the entry count in payload 1. */
  lemma GetUsageOutcome(m: Bytes, req: VectorRequest, listing: seq<Listed>, e: Entries, build: BuildFilename)
    requires GetUsageSafe(m, req)
    requires Disjoint(req.payloadBuffers[0].address, 4, req.payloadBuffers[1].address, 4)
    ensures var o := GetUsageSpec(m, req, listing, e, build);
            var u := Usage(IsDir(e, VectorPath(m, req, build)), listing);
            var a, b := req.payloadBuffers[0].address, req.payloadBuffers[1].address;
            o.status == ResultOk && o.entries == e &&
            Decode32(o.mem[a..a + 4]) == u.0 && Decode32(o.mem[b..b + 4]) == u.1
    ensures var a, b := req.payloadBuffers[0].address, req.payloadBuffers[1].address;
            var o := GetUsageSpec(m, req, listing, e, build);
            forall i :: 0 <= i < |m| && !(a <= i < a + 4) && !(b <= i < b + 4) ==> o.mem[i] == m[i]
  {
    var u := Usage(IsDir(e, VectorPath(m, req, build)), listing);
    var a: nat, b: nat := req.payloadBuffers[0].address, req.payloadBuffers[1].address;
    var m1 := Store(m, a, BE32(u.0));
    StoreWindow(m, a, BE32(u.0), 0, 4);
    StoreElsewhere(m1, b, BE32(u.1), a, a + 4);
    StoreWindow(m1, b, BE32(u.1), 0, 4);
    var o := GetUsageSpec(m, req, listing, e, build);
    assert o.mem == Store(m1, b, BE32(u.1));
    forall i | 0 <= i < |m| && !(a <= i < a + 4) && !(b <= i < b + 4)
      ensures o.mem[i] == m[i]
    {
      assert m1[i] == m[i];
    }
  }

  /** For a directory, the block count is the total size in whole 16 KiB
      blocks, rounded down, as long as it fits in 32 bits, and the entry count
      is the number of entries; anything else counts as zero and zero. */
  lemma UsageMeaning(isDir: bool, listing: seq<Listed>)
    ensures !isDir ==> Usage(isDir, listing) == (0, 0)
    ensures isDir && |listing| < U32Modulus ==> Usage(isDir, listing).1 == |listing|
    ensures isDir && SumSizes(listing) < BlockSize * U32Modulus ==>
              Usage(isDir, listing).0 * BlockSize <= SumSizes(listing) < (Usage(isDir, listing).0 + 1) * BlockSize
  {
    if isDir && SumSizes(listing) < BlockSize * U32Modulus {
      var sum := SumSizes(listing);
      assert sum % U64Modulus == sum;
      var q := sum / BlockSize;
      assert q < U32Modulus;
      assert Usage(isDir, listing).0 == q;
    }
  }

  /** Two entries of 16 KiB each in a directory use two blocks and two
      entries; a non-directory uses none. */
  lemma UsageExample()
    ensures Usage(true, [Listed([0x61], 0x4000), Listed([0x62], 0x4000)]) == (2, 2)
    ensures Usage(false, [Listed([0x61], 0x4000), Listed([0x62], 0x4000)]) == (0, 0)
  {
    var ls := [Listed([0x61], 0x4000), Listed([0x62], 0x4000)];
    assert ls[..1][..0] == [];
    assert SumSizes(ls) == 0x8000;
  }

  /* ---------------------------------------------------------------- */
  /* Open                                                              */

  /** After Open the scratch folder exists and is empty of everything the
      host could remove, whether it was there before (and is cleared) or not
      (and is made). */
  lemma OpenResetsTmp(e: Entries, ro: set<Path>, userDir: Path, volume: Volume)
    requires IsDir(e, TmpPath(userDir)) ||
             (TmpPath(userDir) !in e && forall k :: k in e ==> !Beneath(k, TmpPath(userDir)))
    requires TmpPath(userDir) !in ro && ParentsPresent(e, TmpPath(userDir))
    ensures var tmp := TmpPath(userDir);
            var r := OpenedEntries(e, ro, userDir, volume);
            IsDir(r, tmp) && forall k :: k in r && Beneath(k, tmp) ==> k in ro
  {
    var tmp := TmpPath(userDir);
    var cleared := WithoutTree(e, ro, tmp);
    assert ParentsPresent(cleared, tmp) by {
      forall q | q in DirPrefixes(tmp) ensures IsDir(cleared, q) {
        assert IsDir(e, q) && q != tmp && !Beneath(q, tmp);
      }
    }
    var made := if CreateDirOk(cleared, ro, tmp) then cleared[tmp := Dir] else cleared;
    assert IsDir(made, tmp) by {
      if !CreateDirOk(cleared, ro, tmp) {
        assert tmp in cleared;
      }
    }
    assert forall k :: k in made && Beneath(k, tmp) ==> k in ro;
    if volume.Volume? {
      var h := HomePath(userDir, volume.titleId, volume.gameId);
      var u := |userDir|;
      assert h[u + 2] == 0x74 by {
        assert h == userDir + TitleFolder + Hex8(NonZeroOr(volume.titleId, DefaultTitleId)) + [Sep]
                  + Hex8(NonZeroOr(volume.gameId, DefaultGameId)) + NoCopyFolder;
        assert h[u + 2] == TitleFolder[2];
      }
      assert tmp[u + 2] == 0x70 by {
        assert tmp[u + 2] == TmpFolder[2];
      }
      forall q | q in DirPrefixes(h) && q !in made
        ensures !Beneath(q, tmp)
      {
      }
    }
  }

  /** With a disc in the drive, Open makes the title's save-data folder
      title/<title>/<game>/data/nocopy and every folder above it, provided
      nothing on the way is read-only or a file. */
  lemma OpenCreatesHome(e: Entries, ro: set<Path>, userDir: Path, titleId: u32, gameId: u32)
    requires PrefixesFree(e, ro, HomePath(userDir, titleId, gameId))
    ensures var h := HomePath(userDir, titleId, gameId);
            var r := OpenedEntries(e, ro, userDir, Volume(titleId, gameId));
            ParentsPresent(r, h) && IsDir(r, h[..|h| - 1])
  {
    var h := HomePath(userDir, titleId, gameId);
    var tmp := TmpPath(userDir);
    var cleared := WithoutTree(e, ro, tmp);
    var made := if CreateDirOk(cleared, ro, tmp) then cleared[tmp := Dir] else cleared;
    assert PrefixesFree(made, ro, h);
    assert h[..|h| - 1] in DirPrefixes(h);
  }
}
