/** What the device sets up when it is opened: the scratch folder and the
    per-title save-data folder `title/%08x/%08x/data/nocopy/` under the
    emulated user directory (FULL_WII_USER_DIR). */
module HomeDir {
  import opened GuestMemory
  import opened HostFs

  /** The bytes of an ASCII string literal. */
  function Ascii(s: string): (r: Bytes)
    requires forall i :: 0 <= i < |s| ==> s[i] < 128 as char
    ensures |r| == |s| && forall i :: 0 <= i < |s| ==> r[i] == s[i] as int
  {
    seq(|s|, i requires 0 <= i < |s| => s[i] as int)
  }

  const TitleFolder: Bytes := Ascii("title/")
  const NoCopyFolder: Bytes := Ascii("/data/nocopy/")
  const TmpFolder: Bytes := Ascii("tmp")

  /** Used when the disc reports a zero title identifier. */
  const DefaultTitleId: u32 := 0x0001_0000
  /** Used when the disc reports a zero game identifier. */
  const DefaultGameId: u32 := 0xF00D_BEEF

  /** The two identifiers read from the mounted volume: the title identifier
      (already in host byte order) and the game identifier; or no valid volume. */
  datatype Volume = NoVolume | Volume(titleId: u32, gameId: u32)

  /** An identifier, or the fallback when the volume reported zero. */
  function NonZeroOr(id: u32, fallback: u32): (r: u32)
    requires fallback != 0
    ensures r != 0
    ensures id != 0 ==> r == id
    ensures id == 0 ==> r == fallback
  {
    if id == 0 then fallback else id
  }

  /** The digits printf's %x writes: '0'-'9' and lower-case 'a'-'f'. */
  predicate LowerHex(c: u8) {
    0x30 <= c <= 0x39 || 0x61 <= c <= 0x66
  }

  /** One lower-case hexadecimal digit, as printf's %x writes it. */
  function HexDigit(d: nat): (c: u8)
    requires d < 16
    ensures LowerHex(c) && c != Sep && c != 0
  {
    if d < 10 then 0x30 + d else 0x61 + (d - 10)
  }

  /** The value of one hexadecimal digit (upper-case accepted too). */
  function DigitValue(c: u8): nat {
    if 0x30 <= c <= 0x39 then c - 0x30
    else if 0x61 <= c <= 0x66 then c - 0x61 + 10
    else if 0x41 <= c <= 0x46 then c - 0x41 + 10
    else 0
  }

  function Pow16(n: nat): (r: nat)
    ensures r > 0
  {
    if n == 0 then 1 else 16 * Pow16(n - 1)
  }

  /** The last `n` hexadecimal digits of `x`, most significant first, padded
      with zeros (printf's "%0<n>x"). */
  function HexDigits(x: nat, n: nat): (r: Bytes)
    ensures |r| == n
    ensures forall i :: 0 <= i < n ==> LowerHex(r[i]) && r[i] != Sep && r[i] != 0
  {
    if n == 0 then [] else HexDigits(x / 16, n - 1) + [HexDigit(x % 16)]
  }

  /** The number a string of hexadecimal digits spells. */
  function HexValue(s: Bytes): nat {
    if s == [] then 0 else HexValue(s[..|s| - 1]) * 16 + DigitValue(s[|s| - 1])
  }

  /** Printing `n` digits and reading them back gives the number, when it fits. */
  lemma {:induction false} HexRoundTrip(x: nat, n: nat)
    requires x < Pow16(n)
    ensures HexValue(HexDigits(x, n)) == x
  {
    if n > 0 {
      var s := HexDigits(x, n);
      assert s[..|s| - 1] == HexDigits(x / 16, n - 1);
      HexRoundTrip(x / 16, n - 1);
    }
  }

  /** sprintf("%08x", x). */
  function Hex8(x: u32): (r: Bytes)
    ensures |r| == 8 && HexValue(r) == x
    ensures forall i :: 0 <= i < 8 ==> LowerHex(r[i]) && r[i] != Sep && r[i] != 0
  {
    assert Pow16(8) == 0x1_0000_0000;
    HexRoundTrip(x, 8);
    HexDigits(x, 8)
  }

  /** FULL_WII_USER_DIR "tmp". */
  function TmpPath(userDir: Path): (r: Path)
    ensures |r| == |userDir| + 3 && r[..|userDir|] == userDir
  {
    userDir + TmpFolder
  }

  /** The home directory created at open time,
      FULL_WII_USER_DIR "title/%08x/%08x/data/nocopy/" with both fallbacks applied. */
  function HomePath(userDir: Path, titleId: u32, gameId: u32): (r: Path)
    ensures |r| == |userDir| + 36 && r[..|userDir|] == userDir
    ensures HexValue(r[|userDir| + 6..|userDir| + 14]) == NonZeroOr(titleId, DefaultTitleId)
    ensures HexValue(r[|userDir| + 15..|userDir| + 23]) == NonZeroOr(gameId, DefaultGameId)
    ensures r[|userDir|..|userDir| + 6] == TitleFolder && r[|userDir| + 14] == Sep
    ensures r[|userDir| + 23..] == NoCopyFolder && r[|r| - 1] == Sep
    ensures forall i :: |userDir| + 6 <= i < |userDir| + 14 || |userDir| + 15 <= i < |userDir| + 23 ==>
              LowerHex(r[i])
  {
    var g := NonZeroOr(gameId, DefaultGameId);
    var t := NonZeroOr(titleId, DefaultTitleId);
    var r := userDir + TitleFolder + Hex8(t) + [Sep] + Hex8(g) + NoCopyFolder;
    assert r[|userDir| + 6..|userDir| + 14] == Hex8(t);
    assert r[|userDir| + 15..|userDir| + 23] == Hex8(g);
    assert r[|userDir|..|userDir| + 6] == TitleFolder;
    assert r[|userDir| + 23..] == NoCopyFolder;
    r
  }

  /** Different titles, or different games of one title, get different home
      directories (after the fallbacks are applied). */
  lemma HomePathInjective(userDir: Path, t1: u32, g1: u32, t2: u32, g2: u32)
    requires HomePath(userDir, t1, g1) == HomePath(userDir, t2, g2)
    ensures NonZeroOr(t1, DefaultTitleId) == NonZeroOr(t2, DefaultTitleId)
    ensures NonZeroOr(g1, DefaultGameId) == NonZeroOr(g2, DefaultGameId)
  {
    var u := |userDir|;
    assert HomePath(userDir, t1, g1)[u + 6..u + 14] == HomePath(userDir, t2, g2)[u + 6..u + 14];
    assert HomePath(userDir, t1, g1)[u + 15..u + 23] == HomePath(userDir, t2, g2)[u + 15..u + 23];
  }

  /** A zero identifier from the disc is never used in a path: the folder of a
      disc reporting (0, 0) is the folder of (0x00010000, 0xF00DBEEF). */
  lemma ZeroIdsFallBack(userDir: Path)
    ensures HomePath(userDir, 0, 0) == HomePath(userDir, DefaultTitleId, DefaultGameId)
  {
  }

  /** What Open does to the host: the scratch folder is removed with all it
      holds and made again, and with a valid volume the home directory's full
      path is created. */
  function OpenedEntries(e: Entries, ro: set<Path>, userDir: Path, volume: Volume): Entries {
    var tmp := TmpPath(userDir);
    var cleared := WithoutTree(e, ro, tmp);
    var made := if CreateDirOk(cleared, ro, tmp) then cleared[tmp := Dir] else cleared;
    if volume.Volume? then WithParents(made, ro, HomePath(userDir, volume.titleId, volume.gameId))
    else made
  }
}
